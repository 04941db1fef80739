/** The alias table of the ANS decoder (lib/jxl/ans_common.h, lib/jxl/ans_common.cc).

`InitAliasTable` packs a distribution summing to 4096 into `Pow2(L)` entries of `Pow2(12 - L)` slots,
each entry holding slots of at most two symbols; `Lookup` reads it back in constant time.
The theorem is that `Lookup` is a bijection from [0, 4096) to the pairs (symbol, offset below
the symbol's frequency).
 */
module AliasTable {
  import opened Bits
  import opened Sums

  const ANS_LOG_TAB_SIZE: nat := 12
  const ANS_TAB_SIZE: nat := 4096

  type UInt8 = x: nat | x < 0x100
  type UInt16 = x: nat | x < 0x1_0000

  datatype Entry = Entry(
    cutoff: UInt8, rightValue: UInt8, freq0: UInt16, offsets1: UInt16, freq1XorFreq0: UInt16)

  datatype Symbol = Symbol(value: nat, offset: nat, freq: nat)

  /** Position `pos` of entry `i`: the two parts are told apart by `cutoff`, and the frequency is
      selected by an XOR. */
  function EntrySymbol(entry: Entry, i: nat, pos: nat): Symbol {
    var greater := pos >= entry.cutoff;
    var offsets1Or0 := if greater then entry.offsets1 else 0;
    var freq1XorFreq0Or0 := if greater then entry.freq1XorFreq0 else 0;
    Symbol(if greater then entry.rightValue else i, offsets1Or0 + pos, Xor(entry.freq0, freq1XorFreq0Or0))
  }

  function Lookup(table: seq<Entry>, value: nat, entrySize: nat): Symbol
    requires entrySize > 0 && value / entrySize < |table|
  {
    EntrySymbol(table[value / entrySize], value / entrySize, value % entrySize)
  }

  // ----- what a table is for -----

  function Freq(d: seq<nat>, s: nat): nat {
    if s < |d| then d[s] else 0
  }

  ghost predicate IsSlot(d: seq<nat>, s: nat, o: nat) {
    o < Freq(d, s)
  }

  ghost predicate LooksUp(table: seq<Entry>, entrySize: nat, v: nat, s: nat, o: nat)
    requires entrySize > 0
  {
    PositionHolds(table, v / entrySize, v % entrySize, s, o)
  }

  ghost predicate PositionHolds(table: seq<Entry>, i: nat, pos: nat, s: nat, o: nat) {
    i < |table| && EntrySymbol(table[i], i, pos).value == s && EntrySymbol(table[i], i, pos).offset == o
  }

  /** Every input finds a slot of a symbol that occurs, together with that symbol's frequency. */
  ghost predicate Sound(d: seq<nat>, table: seq<Entry>, entrySize: nat)
    requires entrySize > 0
  {
    forall v: nat | v < ANS_TAB_SIZE ::
      v / entrySize < |table| &&
      var r := Lookup(table, v, entrySize);
      IsSlot(d, r.value, r.offset) && r.freq == Freq(d, r.value)
  }

  ghost predicate Injective(table: seq<Entry>, entrySize: nat)
    requires entrySize > 0
  {
    forall v: nat, w: nat, s: nat, o: nat |
      v < ANS_TAB_SIZE && w < ANS_TAB_SIZE &&
      LooksUp(table, entrySize, v, s, o) && LooksUp(table, entrySize, w, s, o) :: v == w
  }

  ghost predicate Surjective(d: seq<nat>, table: seq<Entry>, entrySize: nat)
    requires entrySize > 0
  {
    forall s: nat, o: nat | IsSlot(d, s, o) ::
      exists v: nat :: v < ANS_TAB_SIZE && LooksUp(table, entrySize, v, s, o)
  }

  /** `Lookup` is a bijection from [0, 4096) onto the slots of `d`. */
  ghost predicate IsAliasTable(d: seq<nat>, table: seq<Entry>, entrySize: nat) {
    entrySize > 0 && Sound(d, table, entrySize) && Injective(table, entrySize) &&
    Surjective(d, table, entrySize)
  }

  /** The table of a single-symbol distribution leaves the input unchanged as the offset. */
  ghost predicate IsIdentityTable(table: seq<Entry>, entrySize: nat, sym: nat) {
    entrySize > 0 &&
    forall v: nat | v < ANS_TAB_SIZE ::
      v / entrySize < |table| && Lookup(table, v, entrySize) == Symbol(sym, v, ANS_TAB_SIZE)
  }

  // ----- the distribution, trimmed -----

  /** Trailing non-occurring symbols removed. */
  function Trimmed(d: seq<nat>): (t: seq<nat>)
    ensures |t| <= |d| && t == d[..|t|]
    ensures t == [] || t[|t| - 1] != 0
    ensures forall s: nat :: Freq(t, s) == Freq(d, s)
  {
    if d != [] && d[|d| - 1] == 0 then Trimmed(d[..|d| - 1]) else d
  }

  /** ... and the empty distribution replaced by one that always yields symbol 0. */
  function Normalized(d: seq<nat>): seq<nat> {
    if Trimmed(d) == [] then [ANS_TAB_SIZE] else Trimmed(d)
  }

  lemma {:induction false} TrimmedSum(d: seq<nat>)
    ensures Sum(Trimmed(d)) == Sum(d)
  {
    if d != [] && d[|d| - 1] == 0 {
      var init := d[..|d| - 1];
      TrimmedSum(init);
      SumAppend(init, 0);
      assert d == init + [0];
    }
  }

  // ----- the invariant of the reassignment loop -----

  function Load(c: seq<nat>, filled: set<nat>, e: nat, i: nat): nat
    requires i < |c|
  {
    if i in filled then e else c[i]
  }

  /** Slots assigned to entry `i` so far, for all entries. */
  function Loads(c: seq<nat>, filled: set<nat>, e: nat): (l: seq<nat>)
    ensures |l| == |c|
  {
    seq(|c|, i requires 0 <= i < |c| => Load(c, filled, e, i))
  }

  /** Offset `o` of symbol `s` lies in the right part of entry `u`. */
  ghost predicate InRight(c: seq<nat>, a: seq<Entry>, e: nat, u: nat, s: nat, o: nat)
    requires u < |c| == |a|
  {
    a[u].rightValue == s && a[u].offsets1 <= o && o + c[u] < a[u].offsets1 + e
  }

  /** Right parts lie above the owner's own cutoff, inside its frequency. */
  ghost predicate RightInRange(d: seq<nat>, c: seq<nat>, a: seq<Entry>, e: nat, u: nat)
    requires u < |c| == |a|
  {
    c[u] < e && a[u].rightValue < |c| && a[u].offsets1 >= c[u] &&
    a[u].offsets1 >= c[a[u].rightValue] &&
    a[u].offsets1 + e - c[u] <= Freq(d, a[u].rightValue)
  }

  ghost predicate RightsDisjoint(c: seq<nat>, a: seq<Entry>, e: nat, u: nat, w: nat)
    requires u < |c| == |a| && w < |c|
  {
    a[u].rightValue == a[w].rightValue ==>
      a[u].offsets1 + e - c[u] <= a[w].offsets1 || a[w].offsets1 + e - c[w] <= a[u].offsets1
  }

  /** The slots of each symbol `s` are those below `c[s]`, held by its own entry, and the
      right parts of the filled entries that name `s`, without overlap. */
  ghost predicate Tiled(d: seq<nat>, c: seq<nat>, a: seq<Entry>, filled: set<nat>, e: nat) {
    && |c| == |a| && |d| <= |c|
    && (forall i: nat | i < |c| :: c[i] <= Freq(d, i))
    && (forall u | u in filled :: u < |c| && RightInRange(d, c, a, e, u))
    && (forall u, w | u in filled && w in filled && u != w :: RightsDisjoint(c, a, e, u, w))
    && (forall s: nat, o: nat | s < |c| && c[s] <= o && IsSlot(d, s, o) ::
          exists u :: u in filled && InRight(c, a, e, u, s, o))
  }

  lemma TiledInit(d: seq<nat>, c: seq<nat>, a: seq<Entry>, e: nat)
    requires |c| == |a| && |d| <= |c|
    requires forall i: nat | i < |c| :: c[i] == Freq(d, i)
    ensures Tiled(d, c, a, {}, e)
  {
  }

  /** Moving the top slots of the overfull entry `ov` into the free part of the underfull entry `un`. */
  lemma TiledStep(d: seq<nat>, c: seq<nat>, a: seq<Entry>, filled: set<nat>, e: nat,
                  ov: nat, un: nat, c': seq<nat>, a': seq<Entry>)
    requires Tiled(d, c, a, filled, e)
    requires ov < |c| && un < |c| && c[ov] > e > c[un] && un !in filled
    requires c' == c[ov := c[ov] - (e - c[un])]
    requires c'[ov] < 0x1_0000 && ov < 0x100
    requires a' == a[un := a[un].(rightValue := ov, offsets1 := c'[ov])]
    ensures Tiled(d, c', a', filled + {un}, e)
  {
    var filled' := filled + {un};
    forall u | u in filled' ensures u < |c'| && RightInRange(d, c', a', e, u) {
      if u != un {
        assert RightInRange(d, c, a, e, u);
      }
    }
    forall u, w | u in filled' && w in filled' && u != w ensures RightsDisjoint(c', a', e, u, w) {
      if u != un && w != un {
        assert RightsDisjoint(c, a, e, u, w);
      } else if u != un {
        assert RightInRange(d, c, a, e, u);
      } else {
        assert RightInRange(d, c, a, e, w);
      }
    }
    forall s: nat, o: nat | s < |c'| && c'[s] <= o && IsSlot(d, s, o)
      ensures exists u :: u in filled' && InRight(c', a', e, u, s, o)
    {
      if s == ov && o < c[ov] {
        assert InRight(c', a', e, un, s, o);
      } else {
        var u :| u in filled && InRight(c, a, e, u, s, o);
        assert RightInRange(d, c, a, e, u);
        assert InRight(c', a', e, u, s, o);
      }
    }
  }

  /** Excess equals deficit: the loads still average exactly one entry each. */
  lemma LoadsStep(c: seq<nat>, filled: set<nat>, e: nat, ov: nat, un: nat)
    requires ov < |c| && un < |c| && c[ov] > e > c[un] && un !in filled && ov !in filled
    ensures Sum(Loads(c[ov := c[ov] - (e - c[un])], filled + {un}, e)) == Sum(Loads(c, filled, e))
  {
    var l := Loads(c, filled, e);
    var rest: nat := c[ov] - (e - c[un]);
    var l1: seq<nat> := l[un := e];
    SumUpdate(l, un, e);
    SumUpdate(l1, ov, rest);
    assert Loads(c[ov := rest], filled + {un}, e) == l1[ov := rest];
  }

  /** While some entry is overfull, some unfilled entry is underfull. */
  lemma UnderfullExists(c: seq<nat>, filled: set<nat>, e: nat, ov: nat)
    requires Sum(Loads(c, filled, e)) == |c| * e
    requires ov < |c| && ov !in filled && c[ov] > e
    ensures exists u: nat :: u < |c| && u !in filled && c[u] < e
  {
    var l := Loads(c, filled, e);
    assert l[ov] > e;
    if forall u: nat | u < |c| :: u in filled || c[u] >= e {
      SumAtLeast(l, e);
    }
  }

  /** Once no entry is overfull, every entry is exactly full. */
  lemma AllFull(c: seq<nat>, filled: set<nat>, e: nat)
    requires Sum(Loads(c, filled, e)) == |c| * e
    requires forall i: nat | i < |c| :: c[i] <= e
    ensures forall i: nat | i < |c| :: i in filled || c[i] == e
  {
    var l := Loads(c, filled, e);
    SumAtMost(l, e);
    forall i: nat | i < |c| ensures i in filled || c[i] == e {
      assert l[i] == e;
    }
  }

  // ----- the order in which entries are filled -----

  // Slots that leave overfull entries and slots that enter underfull ones are counted from the entry with the
  // highest index down. The two counts decide which giver fills which entry.

  function Excess(x: nat, y: nat): nat {
    if x > y then x - y else 0
  }

  /** Slots given by the entries from `g` on. */
  function Surplus(d: seq<nat>, e: nat, n: nat, g: nat): nat
    decreases n - g
  {
    if g >= n then 0 else Surplus(d, e, n, g + 1) + Excess(Freq(d, g), e)
  }

  /** Slots missing in the entries from `u` on. */
  function Deficit(d: seq<nat>, e: nat, n: nat, u: nat): nat
    decreases n - u
  {
    if u >= n then 0 else Deficit(d, e, n, u + 1) + Excess(e, Freq(d, u))
  }

  /** The highest entry from `i` down with more than `b` slots given from it on. */
  function Giver(d: seq<nat>, e: nat, n: nat, b: nat, i: nat): (g: nat)
    ensures g <= i
  {
    if i == 0 || Surplus(d, e, n, i) > b then i else Giver(d, e, n, b, i - 1)
  }

  /** The first number of missing slots, from `u` down, that reaches `t`. */
  function Reached(d: seq<nat>, e: nat, n: nat, t: nat, u: nat): nat {
    if u == 0 || Deficit(d, e, n, u) >= t then Deficit(d, e, n, u) else Reached(d, e, n, t, u - 1)
  }

  /** The slots counted when the right part of entry `i` begins and ends to be filled. An entry that was overfull
      has a right part only if it had to give more than its surplus. */
  function Begin(d: seq<nat>, e: nat, n: nat, i: nat): nat {
    if Freq(d, i) > e then Surplus(d, e, n, i) else Deficit(d, e, n, i + 1)
  }

  function End(d: seq<nat>, e: nat, n: nat, i: nat): nat {
    if Freq(d, i) > e then Reached(d, e, n, Surplus(d, e, n, i), n) else Deficit(d, e, n, i)
  }

  /** Entry `i` has the slots of its own symbol up to a cut, and then those of its giver, counted from the top of
      the giver's surplus down. */
  ghost predicate IsSymbolInOrder(d: seq<nat>, e: nat, n: nat, i: nat, pos: nat, r: Symbol) {
    var b := Begin(d, e, n, i);
    var g := Giver(d, e, n, b, n);
    if pos < e - (End(d, e, n, i) - b) then r == Symbol(i, pos, Freq(d, i))
    else r.value == g && r.freq == Freq(d, g) && r.offset == pos + Surplus(d, e, n, g) - b
  }

  /** What every position of the finished table holds, from the distribution alone. */
  ghost predicate IsFilledInOrder(d: seq<nat>, table: seq<Entry>, e: nat) {
    forall i: nat, pos: nat | i < |table| && pos < e ::
      IsSymbolInOrder(d, e, |table|, i, pos, EntrySymbol(table[i], i, pos))
  }

  /** The table is the only one. */
  lemma OneTableInOrder(d: seq<nat>, a: seq<Entry>, b: seq<Entry>, e: nat, v: nat)
    requires IsFilledInOrder(d, a, e) && IsFilledInOrder(d, b, e) && |a| == |b| && e > 0 && v / e < |a|
    ensures Lookup(a, v, e) == Lookup(b, v, e)
  {
    DivMod(v, e);
    hide IsSymbolInOrder, EntrySymbol;
    assert IsSymbolInOrder(d, e, |a|, v / e, v % e, EntrySymbol(a[v / e], v / e, v % e));
    assert IsSymbolInOrder(d, e, |b|, v / e, v % e, EntrySymbol(b[v / e], v / e, v % e));
    OneSymbolInOrder(d, e, |a|, v / e, v % e, Lookup(a, v, e), Lookup(b, v, e));
  }

  lemma OneSymbolInOrder(d: seq<nat>, e: nat, n: nat, i: nat, pos: nat, r: Symbol, q: Symbol)
    requires IsSymbolInOrder(d, e, n, i, pos, r) && IsSymbolInOrder(d, e, n, i, pos, q)
    ensures r == q
  {
    hide Begin, End, Giver, Surplus, Deficit;
  }

  lemma {:induction false} SurplusFalls(d: seq<nat>, e: nat, n: nat, i: nat, j: nat)
    requires i <= j
    ensures Surplus(d, e, n, i) >= Surplus(d, e, n, j)
    ensures i < j && i < n && Freq(d, i) > e ==> Surplus(d, e, n, i) > Surplus(d, e, n, j)
    decreases j - i
  {
    if i < j {
      SurplusFalls(d, e, n, i + 1, j);
    }
  }

  lemma {:induction false} DeficitFalls(d: seq<nat>, e: nat, n: nat, i: nat, j: nat)
    requires i <= j
    ensures Deficit(d, e, n, i) >= Deficit(d, e, n, j)
    ensures i < j && i < n && Freq(d, i) < e ==> Deficit(d, e, n, i) > Deficit(d, e, n, j)
    decreases j - i
  {
    if i < j {
      DeficitFalls(d, e, n, i + 1, j);
    }
  }

  /** Nothing is missing between two entries that no underfull one separates. */
  lemma {:induction false} DeficitStays(d: seq<nat>, e: nat, n: nat, i: nat, j: nat)
    requires i <= j <= n && forall k | i <= k < j :: Freq(d, k) >= e
    ensures Deficit(d, e, n, i) == Deficit(d, e, n, j)
    decreases j - i
  {
    if i < j {
      DeficitStays(d, e, n, i + 1, j);
    }
  }

  /** The entries from `i` on have given no more than `m` if the overfull ones among them have not. */
  lemma {:induction false} SurplusAtMost(d: seq<nat>, e: nat, n: nat, i: nat, m: nat)
    requires forall k: nat | i <= k < n && Freq(d, k) > e :: Surplus(d, e, n, k) <= m
    ensures Surplus(d, e, n, i) <= m
    decreases n - i
  {
    if i < n {
      SurplusAtMost(d, e, n, i + 1, m);
    }
  }

  lemma {:induction false} GiverIs(d: seq<nat>, e: nat, n: nat, b: nat, i: nat, g: nat)
    requires g <= i && Surplus(d, e, n, g) > b >= Surplus(d, e, n, g + 1)
    ensures Giver(d, e, n, b, i) == g
    decreases i
  {
    if g < i {
      SurplusFalls(d, e, n, g + 1, i);
      GiverIs(d, e, n, b, i - 1, g);
    }
  }

  lemma {:induction false} ReachedIs(d: seq<nat>, e: nat, n: nat, t: nat, i: nat, u: nat)
    requires u <= i && Deficit(d, e, n, u) >= t > Deficit(d, e, n, u + 1)
    ensures Reached(d, e, n, t, i) == Deficit(d, e, n, u)
    decreases i
  {
    if u < i {
      DeficitFalls(d, e, n, u + 1, i);
      ReachedIs(d, e, n, t, i - 1, u);
    }
  }

  // ----- what the order means -----

  lemma {:induction false} GiverGives(d: seq<nat>, e: nat, n: nat, b: nat, i: nat)
    requires i <= n && Surplus(d, e, n, 0) > b && Surplus(d, e, n, i + 1) <= b
    ensures var g := Giver(d, e, n, b, i); g < n && Surplus(d, e, n, g) > b >= Surplus(d, e, n, g + 1) && Freq(d, g) > e
    decreases i
  {
    if i > 0 && Surplus(d, e, n, i) <= b {
      GiverGives(d, e, n, b, i - 1);
    }
  }

  /** Slots of the entries from `i` on. */
  lemma {:induction false} CountsFrom(d: seq<nat>, e: nat, n: nat, i: nat)
    requires i <= n && |d| <= n
    ensures Surplus(d, e, n, i) + (n - i) * e == Deficit(d, e, n, i) + Sum(d[if i < |d| then i else |d|..])
    decreases n - i
  {
    if i < n {
      CountsFrom(d, e, n, i + 1);
      assert (n - i) * e == (n - (i + 1)) * e + e;
      if i < |d| {
        assert d[i..][1..] == d[i + 1..];
      }
    } else {
      assert d[|d|..] == [];
    }
  }

  /** All in all, as many slots are given as are missing. */
  lemma AllIsGiven(d: seq<nat>, e: nat, n: nat)
    requires Sum(d) == n * e && |d| <= n
    ensures Surplus(d, e, n, 0) == Deficit(d, e, n, 0)
  {
    CountsFrom(d, e, n, 0);
    assert d[0..] == d;
  }

  /** Of two entries that are short of slots, the higher one is filled first: its last slot is from a higher symbol,
      or from higher up in the same one. */
  lemma HigherFilledFirst(d: seq<nat>, table: seq<Entry>, e: nat, u: nat, w: nat)
    requires IsFilledInOrder(d, table, e) && Sum(d) == |table| * e && |d| <= |table|
    requires u < w < |table| && Freq(d, u) < e && Freq(d, w) < e
    ensures var lo, hi := EntrySymbol(table[u], u, e - 1), EntrySymbol(table[w], w, e - 1);
            hi.value > lo.value || (hi.value == lo.value && hi.offset > lo.offset)
  {
    var n := |table|;
    hide EntrySymbol, Surplus, Deficit, Giver, Reached;
    assert IsSymbolInOrder(d, e, n, u, e - 1, EntrySymbol(table[u], u, e - 1));
    assert IsSymbolInOrder(d, e, n, w, e - 1, EntrySymbol(table[w], w, e - 1));
    DeficitNext(d, e, n, u);
    DeficitNext(d, e, n, w);
    DeficitFalls(d, e, n, u + 1, w);
    DeficitFalls(d, e, n, 0, u);
    AllIsGiven(d, e, n);
    LastSurplus(d, e, n);
    GiverGives(d, e, n, Deficit(d, e, n, u + 1), n);
    GiverGives(d, e, n, Deficit(d, e, n, w + 1), n);
    var lower, higher := Giver(d, e, n, Deficit(d, e, n, u + 1), n), Giver(d, e, n, Deficit(d, e, n, w + 1), n);
    if higher < lower {
      SurplusFalls(d, e, n, higher + 1, lower);
    }
  }

  lemma LastSurplus(d: seq<nat>, e: nat, n: nat)
    ensures Surplus(d, e, n, n + 1) == 0
  {
  }

  /** An entry that was overfull and gave more than its surplus is filled from the next lower overfull symbol. */
  lemma ExhaustedFilledNext(d: seq<nat>, table: seq<Entry>, e: nat, i: nat)
    requires IsFilledInOrder(d, table, e) && Sum(d) == |table| * e && |d| <= |table|
    requires i < |table| && Freq(d, i) > e > 0 && EntrySymbol(table[i], i, e - 1).value != i
    ensures var g := EntrySymbol(table[i], i, e - 1).value;
            g < i && Freq(d, g) > e && forall k | g < k < i :: Freq(d, k) <= e
  {
    var n := |table|;
    hide EntrySymbol, Surplus, Deficit, Giver;
    assert IsSymbolInOrder(d, e, n, i, e - 1, EntrySymbol(table[i], i, e - 1));
    var s := Surplus(d, e, n, i);
    var g := Giver(d, e, n, s, n);
    SurplusFalls(d, e, n, 0, i);
    AllIsGiven(d, e, n);
    LastSurplus(d, e, n);
    if Deficit(d, e, n, 0) == s {
      ReachedAtMost(d, e, n, s, n);
    }
    GiverGives(d, e, n, s, n);
    if g >= i {
      SurplusFalls(d, e, n, i, g);
    }
    forall k | g < k < i ensures Freq(d, k) <= e {
      SurplusFalls(d, e, n, g + 1, k);
      SurplusFalls(d, e, n, k, i);
    }
  }

  lemma {:induction false} ReachedAtMost(d: seq<nat>, e: nat, n: nat, t: nat, i: nat)
    ensures Reached(d, e, n, t, i) <= Deficit(d, e, n, 0)
    decreases i
  {
    DeficitFalls(d, e, n, 0, i);
    if i > 0 {
      ReachedAtMost(d, e, n, t, i - 1);
    }
  }

  // ----- the order in the reassignment loop -----

  /** The underfull entries from `low` on have been filled; `pending` is a giver that gave more than its surplus
      and waits to be filled, or the number of entries. */
  datatype Turn = Turn(low: nat, pending: nat)

  /** The slots that the givers which are used up account for. */
  function Moved(d: seq<nat>, e: nat, n: nat, t: Turn): nat {
    if t.pending < n then Surplus(d, e, n, t.pending) else Deficit(d, e, n, t.low)
  }

  ghost predicate IsPlaced(d: seq<nat>, e: nat, n: nat, i: nat, entry: Entry) {
    var g := Giver(d, e, n, Begin(d, e, n, i), n);
    entry.rightValue == g && entry.offsets1 == e + Surplus(d, e, n, g) - End(d, e, n, i)
  }

  /** What entry `i` holds at this turn. */
  ghost predicate IsOnTurn(d: seq<nat>, e: nat, n: nat, t: Turn, i: nat, ci: nat, entry: Entry, isFilled: bool) {
    if i == t.pending then
      Freq(d, i) > e && ci == e + Surplus(d, e, n, i) - Deficit(d, e, n, t.low) && ci < e && !isFilled
    else if Freq(d, i) <= e then
      ci == Freq(d, i) && (isFilled <==> Freq(d, i) < e && i >= t.low) && (isFilled ==> IsPlaced(d, e, n, i, entry))
    else if Surplus(d, e, n, i) > Moved(d, e, n, t) then
      !isFilled && ci == (if Surplus(d, e, n, i + 1) > Moved(d, e, n, t) then Freq(d, i)
                          else e + Surplus(d, e, n, i) - Moved(d, e, n, t))
    else
      ci == e - (End(d, e, n, i) - Surplus(d, e, n, i)) && (isFilled <==> ci < e) &&
      (isFilled ==> IsPlaced(d, e, n, i, entry))
  }

  ghost predicate IsAscending(st: seq<nat>) {
    forall j, k | 0 <= j < k < |st| :: st[j] < st[k]
  }

  ghost predicate TurnOk(d: seq<nat>, e: nat, n: nat, t: Turn) {
    && t.low <= n && t.pending <= n && (t.low < n ==> Freq(d, t.low) < e)
    && (t.pending < n ==> t.low < n && Freq(d, t.pending) > e
                          && Deficit(d, e, n, t.low + 1) < Surplus(d, e, n, t.pending) < Deficit(d, e, n, t.low))
  }

  /** Both stacks are sorted; only a pending giver lies on top of higher or lower entries. */
  ghost predicate InOrder(d: seq<nat>, c: seq<nat>, a: seq<Entry>, filled: set<nat>, e: nat, over: seq<nat>,
                          under: seq<nat>, t: Turn) {
    && |a| == |c| && TurnOk(d, e, |c|, t) && IsAscending(over)
    && (if t.pending < |c| then under != [] && under[|under| - 1] == t.pending && IsAscending(under[..|under| - 1])
        else IsAscending(under))
    && forall i: nat | i < |c| :: IsOnTurn(d, e, |c|, t, i, c[i], a[i], i in filled)
  }

  lemma {:induction false} ReachedAtLeast(d: seq<nat>, e: nat, n: nat, t: nat, i: nat, u: nat)
    requires u <= i && Deficit(d, e, n, u) >= t
    ensures Reached(d, e, n, t, i) >= t
    decreases i
  {
    if u < i && Deficit(d, e, n, i) < t {
      ReachedAtLeast(d, e, n, t, i - 1, u);
    }
  }

  lemma SurplusNext(d: seq<nat>, e: nat, n: nat, i: nat)
    requires i < n && Freq(d, i) > e
    ensures Surplus(d, e, n, i) == Surplus(d, e, n, i + 1) + Freq(d, i) - e
  {
  }

  lemma DeficitNext(d: seq<nat>, e: nat, n: nat, i: nat)
    requires i < n && Freq(d, i) < e
    ensures Deficit(d, e, n, i) == Deficit(d, e, n, i + 1) + e - Freq(d, i)
  {
  }

  lemma LastIsGreatest(st: seq<nat>, x: nat)
    requires IsAscending(st) && x in st
    ensures st != [] && x <= st[|st| - 1]
  {
  }

  /** What an entry that is still overfull gives. */
  lemma OverfullOnTurn(d: seq<nat>, e: nat, n: nat, t: Turn, i: nat, ci: nat, entry: Entry, isFilled: bool)
    requires TurnOk(d, e, n, t) && i < n && IsOnTurn(d, e, n, t, i, ci, entry, isFilled)
    ensures ci > e <==> Freq(d, i) > e && Surplus(d, e, n, i) > Moved(d, e, n, t)
  {
    hide Surplus, Deficit, Giver, Reached, IsPlaced;
    if i != t.pending && Freq(d, i) > e && Surplus(d, e, n, i) <= Moved(d, e, n, t) {
      ReachedAtLeast(d, e, n, Surplus(d, e, n, i), n, t.low);
    }
  }

  /** The giver on top of its stack is the one whose turn it is. */
  lemma TopGiver(d: seq<nat>, c: seq<nat>, a: seq<Entry>, filled: set<nat>, e: nat, over: seq<nat>, under: seq<nat>,
                 t: Turn, ov: nat)
    requires InOrder(d, c, a, filled, e, over, under, t) && StacksMatch(over, under, c, filled, e)
    requires over != [] && ov == over[|over| - 1]
    ensures ov < |c| && ov != t.pending && ov !in filled && Freq(d, ov) > e
    ensures var m := Moved(d, e, |c|, t);
            Surplus(d, e, |c|, ov) > m >= Surplus(d, e, |c|, ov + 1) && c[ov] == e + Surplus(d, e, |c|, ov) - m
  {
    hide Surplus, Deficit, Giver, Reached, IsPlaced, Moved;
    var n, m := |c|, Moved(d, e, |c|, t);
    assert ov in over;
    OverfullOnTurn(d, e, n, t, ov, c[ov], a[ov], ov in filled);
    forall k: nat | ov + 1 <= k < n && Freq(d, k) > e ensures Surplus(d, e, n, k) <= m {
      OverfullOnTurn(d, e, n, t, k, c[k], a[k], k in filled);
      if k in over {
        LastIsGreatest(over, k);
      }
    }
    SurplusAtMost(d, e, n, ov + 1, m);
  }

  /** Without a pending giver, the entry on top of the other stack is the highest that was underfull all along. */
  lemma TopTaker(d: seq<nat>, c: seq<nat>, a: seq<Entry>, filled: set<nat>, e: nat, over: seq<nat>, under: seq<nat>,
                 t: Turn, un: nat)
    requires InOrder(d, c, a, filled, e, over, under, t) && StacksMatch(over, under, c, filled, e)
    requires t.pending == |c| && under != [] && un == under[|under| - 1]
    ensures un < t.low && Freq(d, un) < e && c[un] == Freq(d, un) && un !in filled
    ensures forall k | un < k < t.low :: Freq(d, k) >= e
    ensures Deficit(d, e, |c|, un + 1) == Moved(d, e, |c|, t)
  {
    hide Surplus, Deficit, Giver, Reached, IsPlaced;
    assert un in under && IsOnTurn(d, e, |c|, t, un, c[un], a[un], un in filled);
    forall k | un < k < t.low ensures Freq(d, k) >= e {
      assert IsOnTurn(d, e, |c|, t, k, c[k], a[k], k in filled);
      if Freq(d, k) < e {
        LastIsGreatest(under, k);
      }
    }
    DeficitStays(d, e, |c|, un + 1, t.low);
  }

  /** What one round has to work with: `low` is the underfull entry that is counted next or was counted last. */
  ghost predicate IsRound(d: seq<nat>, e: nat, n: nat, t: Turn, ov: nat, un: nat, low: nat, cov: nat, cun: nat) {
    var m, s := Moved(d, e, n, t), Surplus(d, e, n, ov);
    && TurnOk(d, e, n, t) && ov < n && un < n && low < n && ov != un && Freq(d, ov) > e && Freq(d, low) < e
    && s > m >= Surplus(d, e, n, ov + 1) && Deficit(d, e, n, low) > m && Deficit(d, e, n, low + 1) <= m
    && cun < e && cov == e + s - m && cun == e - (Deficit(d, e, n, low) - m)
    && if t.pending < n then un == t.pending && low == t.low
       else un == low < t.low && cun == Freq(d, un) && Deficit(d, e, n, low + 1) == m &&
            forall k | un < k < t.low :: Freq(d, k) >= e
  }

  function NextTurn(n: nat, e: nat, ov: nat, low: nat, left: nat): Turn {
    Turn(low, if left < e then ov else n)
  }

  lemma RoundIs(d: seq<nat>, c: seq<nat>, a: seq<Entry>, filled: set<nat>, e: nat, over: seq<nat>, under: seq<nat>,
                t: Turn, ov: nat, un: nat, low: nat)
    requires InOrder(d, c, a, filled, e, over, under, t) && StacksMatch(over, under, c, filled, e)
    requires over != [] && ov == over[|over| - 1] && under != [] && un == under[|under| - 1]
    requires low == if t.pending < |c| then t.low else un
    ensures ov < |c| && un < |c| && un !in filled && IsRound(d, e, |c|, t, ov, un, low, c[ov], c[un])
  {
    hide Surplus, Deficit, Giver, Reached, IsPlaced;
    TopGiver(d, c, a, filled, e, over, under, t, ov);
    assert un in under && IsOnTurn(d, e, |c|, t, un, c[un], a[un], un in filled);
    if t.pending == |c| {
      TopTaker(d, c, a, filled, e, over, under, t, un);
      DeficitNext(d, e, |c|, un);
    }
  }

  /** The next turn after a round. */
  lemma NextTurnOk(d: seq<nat>, e: nat, n: nat, t: Turn, ov: nat, un: nat, low: nat, cov: nat, cun: nat)
    requires IsRound(d, e, n, t, ov, un, low, cov, cun)
    ensures cov >= e - cun
    ensures var t' := NextTurn(n, e, ov, low, cov - (e - cun));
            TurnOk(d, e, n, t') && Moved(d, e, n, t) < Moved(d, e, n, t') <= Surplus(d, e, n, ov)
  {
    hide Surplus, Deficit, Giver, Reached;
  }

  /** An entry that takes no part in the round is where it was. */
  lemma OtherOnTurn(d: seq<nat>, e: nat, n: nat, t: Turn, ov: nat, un: nat, low: nat, cov: nat, cun: nat,
                    i: nat, ci: nat, entry: Entry, isFilled: bool)
    requires IsRound(d, e, n, t, ov, un, low, cov, cun) && cov >= e - cun
    requires i < n && i != ov && i != un && IsOnTurn(d, e, n, t, i, ci, entry, isFilled)
    ensures IsOnTurn(d, e, n, NextTurn(n, e, ov, low, cov - (e - cun)), i, ci, entry, isFilled)
  {
    hide Surplus, Deficit, Giver, Reached, IsPlaced, Begin;
    NextTurnOk(d, e, n, t, ov, un, low, cov, cun);
    if Freq(d, i) > e {
      if i < ov {
        SurplusNext(d, e, n, i);
        SurplusFalls(d, e, n, i + 1, ov);
      } else {
        SurplusFalls(d, e, n, ov + 1, i);
      }
    }
  }

  /** The giver afterwards. */
  lemma GiverOnTurn(d: seq<nat>, e: nat, n: nat, t: Turn, ov: nat, un: nat, low: nat, cov: nat, cun: nat, entry: Entry)
    requires IsRound(d, e, n, t, ov, un, low, cov, cun) && cov >= e - cun
    ensures var left := cov - (e - cun); IsOnTurn(d, e, n, NextTurn(n, e, ov, low, left), ov, left, entry, false)
  {
    hide Surplus, Deficit, Giver, Reached, IsPlaced, Begin;
    if Deficit(d, e, n, low) == Surplus(d, e, n, ov) {
      ReachedIs(d, e, n, Surplus(d, e, n, ov), n, low);
    }
  }

  /** The entry that was filled. */
  lemma TakerOnTurn(d: seq<nat>, e: nat, n: nat, t: Turn, ov: nat, un: nat, low: nat, cov: nat, cun: nat, entry: Entry)
    requires IsRound(d, e, n, t, ov, un, low, cov, cun) && cov >= e - cun
    requires entry.rightValue == ov && entry.offsets1 == cov - (e - cun)
    ensures IsOnTurn(d, e, n, NextTurn(n, e, ov, low, cov - (e - cun)), un, cun, entry, true)
  {
    hide Surplus, Deficit, Giver, Reached;
    NextTurnOk(d, e, n, t, ov, un, low, cov, cun);
    GiverIs(d, e, n, Moved(d, e, n, t), n, ov);
    if t.pending < n {
      ReachedIs(d, e, n, Surplus(d, e, n, un), n, low);
    }
  }

  /** Both stacks after a round. */
  lemma StackOrderStep(over: seq<nat>, under: seq<nat>, n: nat, e: nat, t: Turn, left: nat, low: nat)
    requires over != [] && under != [] && IsAscending(over) && over[|over| - 1] < n
    requires if t.pending < n then under[|under| - 1] == t.pending && IsAscending(under[..|under| - 1])
             else IsAscending(under)
    ensures var ov := over[|over| - 1];
            var t' := NextTurn(n, e, ov, low, left);
            var under' := under[..|under| - 1] + (if left < e then [ov] else []);
            IsAscending(over[..|over| - 1] + (if left > e then [ov] else [])) &&
            if t'.pending < n then under' != [] && under'[|under'| - 1] == t'.pending
                                   && IsAscending(under'[..|under'| - 1])
            else IsAscending(under')
  {
    var ov := over[|over| - 1];
    assert over == over[..|over| - 1] + [ov];
    assert (under[..|under| - 1] + [ov])[..|under| - 1] == under[..|under| - 1];
    assert under[..|under| - 1] + [] == under[..|under| - 1] && over[..|over| - 1] + [] == over[..|over| - 1];
  }

  /** All entries after a round. */
  lemma EntriesStep(d: seq<nat>, c: seq<nat>, a: seq<Entry>, filled: set<nat>, e: nat, t: Turn, ov: nat, un: nat,
                    low: nat, c': seq<nat>, a': seq<Entry>)
    requires |a| == |c| && ov < |c| && un < |c| && IsRound(d, e, |c|, t, ov, un, low, c[ov], c[un]) && un !in filled
    requires ov !in filled && ov != un && c[ov] >= e - c[un] && c' == c[ov := c[ov] - (e - c[un])]
    requires |a'| == |a| && a'[un].rightValue == ov && a'[un].offsets1 == c'[ov]
    requires forall i: nat | i < |c| && i != un :: a'[i] == a[i]
    requires forall i: nat | i < |c| :: IsOnTurn(d, e, |c|, t, i, c[i], a[i], i in filled)
    ensures var t' := NextTurn(|c|, e, ov, low, c[ov] - (e - c[un]));
            forall i: nat | i < |c| :: IsOnTurn(d, e, |c|, t', i, c'[i], a'[i], i in filled + {un})
  {
    hide IsRound, IsOnTurn, NextTurn;
    var n := |c|;
    var t' := NextTurn(n, e, ov, low, c[ov] - (e - c[un]));
    forall i: nat | i < n ensures IsOnTurn(d, e, n, t', i, c'[i], a'[i], i in filled + {un}) {
      if i == ov {
        GiverOnTurn(d, e, n, t, ov, un, low, c[ov], c[un], a[ov]);
      } else if i == un {
        TakerOnTurn(d, e, n, t, ov, un, low, c[ov], c[un], a'[un]);
      } else {
        OtherOnTurn(d, e, n, t, ov, un, low, c[ov], c[un], i, c[i], a[i], i in filled);
      }
    }
  }

  /** One round of the reassignment loop keeps the order. */
  lemma OrderStep(d: seq<nat>, c: seq<nat>, a: seq<Entry>, filled: set<nat>, e: nat, over: seq<nat>, under: seq<nat>,
                  t: Turn, c': seq<nat>, a': seq<Entry>, over': seq<nat>, under': seq<nat>)
    returns (t': Turn)
    requires InOrder(d, c, a, filled, e, over, under, t) && StacksMatch(over, under, c, filled, e)
    requires over != [] && under != []
    requires var ov, un := over[|over| - 1], under[|under| - 1];
             ov < |c| && un < |c| && c[ov] >= e - c[un] && c' == c[ov := c[ov] - (e - c[un])] &&
             c'[ov] < 0x1_0000 && ov < 0x100 && a' == a[un := a[un].(rightValue := ov, offsets1 := c'[ov])] &&
             over' == over[..|over| - 1] + (if c'[ov] > e then [ov] else []) &&
             under' == under[..|under| - 1] + (if c'[ov] < e then [ov] else [])
    ensures InOrder(d, c', a', filled + {under[|under| - 1]}, e, over', under', t')
  {
    var n, ov, un := |c|, over[|over| - 1], under[|under| - 1];
    var low := if t.pending < n then t.low else un;
    hide StacksMatch, IsOnTurn, IsAscending, IsRound, TurnOk, NextTurn;
    TopGiverIsFree(d, c, a, filled, e, over, under, t);
    RoundIs(d, c, a, filled, e, over, under, t, ov, un, low);
    RoundApart(d, e, n, t, ov, un, low, c[ov], c[un]);
    t' := NextTurn(n, e, ov, low, c[ov] - (e - c[un]));
    NextTurnOk(d, e, n, t, ov, un, low, c[ov], c[un]);
    EntriesStep(d, c, a, filled, e, t, ov, un, low, c', a');
    StackOrderStep(over, under, n, e, t, c'[ov], low);
  }

  lemma TopGiverIsFree(d: seq<nat>, c: seq<nat>, a: seq<Entry>, filled: set<nat>, e: nat, over: seq<nat>,
                       under: seq<nat>, t: Turn)
    requires InOrder(d, c, a, filled, e, over, under, t) && StacksMatch(over, under, c, filled, e) && over != []
    ensures over[|over| - 1] !in filled
  {
    hide InOrder, StacksMatch;
    TopGiver(d, c, a, filled, e, over, under, t, over[|over| - 1]);
  }

  lemma RoundApart(d: seq<nat>, e: nat, n: nat, t: Turn, ov: nat, un: nat, low: nat, cov: nat, cun: nat)
    requires IsRound(d, e, n, t, ov, un, low, cov, cun)
    ensures ov != un
  {
  }

  lemma OrderInit(d: seq<nat>, c: seq<nat>, a: seq<Entry>, e: nat, over: seq<nat>, under: seq<nat>)
    requires |c| == |a| && forall i: nat | i < |c| :: c[i] == Freq(d, i)
    requires IsAscending(over) && IsAscending(under)
    ensures InOrder(d, c, a, {}, e, over, under, Turn(|c|, |c|))
  {
    var n := |c|;
    hide IsPlaced, Reached, Giver;
    forall i: nat | i < n ensures IsOnTurn(d, e, n, Turn(n, n), i, c[i], a[i], false) {
      if Freq(d, i) > e {
        SurplusNext(d, e, n, i);
      }
    }
  }

  /** When the loop ends: cuts and right parts as the counts say. */
  ghost predicate IsArranged(d: seq<nat>, c: seq<nat>, a: seq<Entry>, e: nat) {
    |a| == |c| && forall i: nat | i < |c| ::
      c[i] == e - (End(d, e, |c|, i) - Begin(d, e, |c|, i)) && (c[i] < e ==> IsPlaced(d, e, |c|, i, a[i]))
  }

  lemma OrderDone(d: seq<nat>, c: seq<nat>, a: seq<Entry>, filled: set<nat>, e: nat, under: seq<nat>, t: Turn)
    requires InOrder(d, c, a, filled, e, [], under, t) && StacksMatch([], under, c, filled, e)
    requires forall i: nat | i < |c| :: c[i] <= e && (i in filled || c[i] == e)
    ensures IsArranged(d, c, a, e)
  {
    var n := |c|;
    hide Surplus, Deficit, Giver, Reached, IsPlaced, StacksMatch;
    forall i: nat | i < n
      ensures c[i] == e - (End(d, e, n, i) - Begin(d, e, n, i)) && (c[i] < e ==> IsPlaced(d, e, n, i, a[i]))
    {
      assert IsOnTurn(d, e, n, t, i, c[i], a[i], i in filled);
      OverfullOnTurn(d, e, n, t, i, c[i], a[i], i in filled);
      if Freq(d, i) <= e {
        DeficitAt(d, e, n, i);
      }
    }
  }

  lemma DeficitAt(d: seq<nat>, e: nat, n: nat, i: nat)
    requires i < n && Freq(d, i) <= e
    ensures Deficit(d, e, n, i) == Deficit(d, e, n, i + 1) + e - Freq(d, i)
  {
  }

  // ----- the finished table -----

  function FreqXor(f1: nat, f0: nat): (x: UInt16)
    requires f1 <= ANS_TAB_SIZE && f0 <= ANS_TAB_SIZE
    ensures Xor(f0, x) == f1
  {
    Pow2Small();
    XorBound(f1, f0, 13);
    XorCancels(f0, f1);
    Xor(f1, f0)
  }

  /** What the last loop makes of entry `i`. */
  function FinalEntry(d: seq<nat>, cutoff: nat, e: nat, raw: Entry, i: nat): Entry
    requires i < 0x100 && e <= 0x100
    requires cutoff <= e && (cutoff < e ==> raw.offsets1 >= cutoff)
    requires forall k | 0 <= k < |d| :: d[k] <= ANS_TAB_SIZE
  {
    var right := if cutoff == e then i else raw.rightValue;
    var offsets1 := if cutoff == e then 0 else raw.offsets1 - cutoff;
    var freq0, freq1 := Freq(d, i), Freq(d, right);
    Entry(if cutoff == e then 0 else cutoff, right, freq0, offsets1, FreqXor(freq1, freq0))
  }

  ghost predicate Finished(d: seq<nat>, c: seq<nat>, raw: seq<Entry>, a: seq<Entry>, filled: set<nat>, e: nat) {
    && e <= 0x100 && |c| <= 0x100 && |a| == |raw|
    && (forall k | 0 <= k < |d| :: d[k] <= ANS_TAB_SIZE)
    && Tiled(d, c, raw, filled, e)
    && (forall i: nat | i < |c| :: c[i] <= e && (i in filled || c[i] == e))
    && (forall i: nat | i < |c| ::
          (c[i] < e ==> raw[i].offsets1 >= c[i]) && a[i] == FinalEntry(d, c[i], e, raw[i], i))
  }

  /** The meaning of position `pos` of entry `i` in terms of the tiling: own part or right part. */
  lemma FinishedEntry(d: seq<nat>, c: seq<nat>, raw: seq<Entry>, a: seq<Entry>, filled: set<nat>, e: nat,
                      i: nat, pos: nat)
    requires Finished(d, c, raw, a, filled, e)
    requires i < |c| && pos < e
    ensures var r := EntrySymbol(a[i], i, pos);
            if pos < c[i] then r == Symbol(i, pos, Freq(d, i))
            else if c[i] == e then false
            else i in filled && r.value == raw[i].rightValue && r.offset == raw[i].offsets1 - c[i] + pos
                 && r.freq == Freq(d, r.value) && InRight(c, raw, e, i, r.value, r.offset)
  {
    XorZero(Freq(d, i));
    assert a[i] == FinalEntry(d, c[i], e, raw[i], i);
    if i in filled {
      assert RightInRange(d, c, raw, e, i);
    }
  }

  lemma FinishedIsSound(d: seq<nat>, c: seq<nat>, raw: seq<Entry>, a: seq<Entry>, filled: set<nat>, e: nat)
    requires Finished(d, c, raw, a, filled, e) && e > 0 && |c| * e == ANS_TAB_SIZE
    ensures Sound(d, a, e)
  {
    forall v: nat | v < ANS_TAB_SIZE
      ensures v / e < |a| &&
              var r := Lookup(a, v, e);
              IsSlot(d, r.value, r.offset) && r.freq == Freq(d, r.value)
    {
      IndexInRange(v, e, |c|);
      var i, pos := v / e, v % e;
      FinishedEntry(d, c, raw, a, filled, e, i, pos);
      if pos >= c[i] {
        assert RightInRange(d, c, raw, e, i);
      }
    }
  }

  lemma SameQuotient(v: nat, w: nat, e: nat)
    requires e > 0 && v / e == w / e && v % e == w % e
    ensures v == w
  {
    assert v == e * (v / e) + v % e;
    assert w == e * (w / e) + w % e;
  }

  lemma SlotIndex(i: nat, pos: nat, e: nat, n: nat)
    requires pos < e && i < n
    ensures i * e + pos < n * e && (i * e + pos) / e == i && (i * e + pos) % e == pos
  {
    DivModUnique(i * e + pos, e, i, pos);
    MulMonotone(i + 1, n, e);
    assert (i + 1) * e == i * e + e;
  }

  /** Two positions with the same meaning are the same position. */
  lemma FinishedEntriesDiffer(d: seq<nat>, c: seq<nat>, raw: seq<Entry>, a: seq<Entry>, filled: set<nat>, e: nat,
                              i: nat, pos: nat, j: nat, pos': nat, s: nat, o: nat)
    requires Finished(d, c, raw, a, filled, e)
    requires pos < e && pos' < e
    requires PositionHolds(a, i, pos, s, o) && PositionHolds(a, j, pos', s, o)
    ensures i == j && pos == pos'
  {
    FinishedEntry(d, c, raw, a, filled, e, i, pos);
    FinishedEntry(d, c, raw, a, filled, e, j, pos');
    assert i != j && i in filled && j in filled ==> RightsDisjoint(c, raw, e, i, j);
    assert i in filled ==> RightInRange(d, c, raw, e, i);
    assert j in filled ==> RightInRange(d, c, raw, e, j);
  }

  ghost predicate PositionsDiffer(a: seq<Entry>, e: nat) {
    forall i: nat, pos: nat, j: nat, pos': nat, s: nat, o: nat |
      pos < e && pos' < e && PositionHolds(a, i, pos, s, o) && PositionHolds(a, j, pos', s, o) ::
      i == j && pos == pos'
  }

  lemma InputsDiffer(a: seq<Entry>, e: nat)
    requires e > 0 && PositionsDiffer(a, e)
    ensures Injective(a, e)
  {
    forall v: nat, w: nat, s: nat, o: nat | LooksUp(a, e, v, s, o) && LooksUp(a, e, w, s, o)
      ensures v == w
    {
      DivMod(v, e);
      DivMod(w, e);
      var i, pos, j, pos' := v / e, v % e, w / e, w % e;
      assert PositionHolds(a, i, pos, s, o) && PositionHolds(a, j, pos', s, o);
      assert i == j && pos == pos';
      SameQuotient(v, w, e);
    }
  }

  lemma FinishedIsInjective(d: seq<nat>, c: seq<nat>, raw: seq<Entry>, a: seq<Entry>, filled: set<nat>, e: nat)
    requires Finished(d, c, raw, a, filled, e) && e > 0
    ensures Injective(a, e)
  {
    forall i: nat, pos: nat, j: nat, pos': nat, s: nat, o: nat |
      pos < e && pos' < e && PositionHolds(a, i, pos, s, o) && PositionHolds(a, j, pos', s, o)
      ensures i == j && pos == pos'
    {
      FinishedEntriesDiffer(d, c, raw, a, filled, e, i, pos, j, pos', s, o);
    }
    InputsDiffer(a, e);
  }

  lemma FinishedInput(d: seq<nat>, c: seq<nat>, raw: seq<Entry>, a: seq<Entry>, filled: set<nat>, e: nat,
                      s: nat, o: nat) returns (v: nat)
    requires Finished(d, c, raw, a, filled, e) && e > 0 && IsSlot(d, s, o)
    ensures v < |c| * e && LooksUp(a, e, v, s, o)
  {
    var i, pos := SlotPosition(d, c, raw, a, filled, e, s, o);
    SlotIndex(i, pos, e, |c|);
    v := i * e + pos;
  }

  lemma FinishedIsSurjective(d: seq<nat>, c: seq<nat>, raw: seq<Entry>, a: seq<Entry>, filled: set<nat>, e: nat)
    requires Finished(d, c, raw, a, filled, e) && e > 0 && |c| * e == ANS_TAB_SIZE
    ensures Surjective(d, a, e)
  {
    forall s: nat, o: nat | IsSlot(d, s, o)
      ensures exists v: nat :: v < ANS_TAB_SIZE && LooksUp(a, e, v, s, o)
    {
      var v := FinishedInput(d, c, raw, a, filled, e, s, o);
    }
  }

  lemma SlotPosition(d: seq<nat>, c: seq<nat>, raw: seq<Entry>, a: seq<Entry>, filled: set<nat>, e: nat,
                     s: nat, o: nat) returns (i: nat, pos: nat)
    requires Finished(d, c, raw, a, filled, e) && IsSlot(d, s, o)
    ensures i < |c| && pos < e && PositionHolds(a, i, pos, s, o)
  {
    if o < c[s] {
      i, pos := s, o;
    } else {
      var u :| u in filled && InRight(c, raw, e, u, s, o);
      assert RightInRange(d, c, raw, e, u);
      i, pos := u, o - raw[u].offsets1 + c[u];
    }
    FinishedEntry(d, c, raw, a, filled, e, i, pos);
  }

  /** Every position of a finished table is as the counts say. */
  lemma FinishedInOrder(d: seq<nat>, c: seq<nat>, raw: seq<Entry>, a: seq<Entry>, filled: set<nat>, e: nat)
    requires Finished(d, c, raw, a, filled, e) && IsArranged(d, c, raw, e)
    ensures IsFilledInOrder(d, a, e)
  {
    hide Surplus, Deficit, Giver, Reached, EntrySymbol, Begin, End;
    assert |a| == |c|;
    forall i: nat, pos: nat | i < |a| && pos < e
      ensures IsSymbolInOrder(d, e, |a|, i, pos, EntrySymbol(a[i], i, pos))
    {
      FinishedEntry(d, c, raw, a, filled, e, i, pos);
    }
  }

  // ----- single-symbol distributions -----

  lemma IdentityPosition(entry: Entry, sym: UInt8, i: nat, pos: nat, start: UInt16)
    requires entry == Entry(0, sym, 0, start, ANS_TAB_SIZE)
    ensures EntrySymbol(entry, i, pos) == Symbol(sym, start + pos, ANS_TAB_SIZE)
  {
    XorZero(ANS_TAB_SIZE);
    XorCancels(0, ANS_TAB_SIZE);
  }

  lemma IdentityIsIdentity(a: seq<Entry>, e: nat, sym: UInt8)
    requires e > 0 && |a| * e == ANS_TAB_SIZE
    requires forall i: nat | i < |a| ::
               e * i < 0x1_0000 && a[i] == Entry(0, sym, 0, e * i, ANS_TAB_SIZE)
    ensures IsIdentityTable(a, e, sym)
  {
    forall v: nat | v < ANS_TAB_SIZE
      ensures v / e < |a| && Lookup(a, v, e) == Symbol(sym, v, ANS_TAB_SIZE)
    {
      DivMod(v, e);
      IndexInRange(v, e, |a|);
      IdentityPosition(a[v / e], sym, v / e, v % e, e * (v / e));
    }
  }

  lemma IdentityIsAliasTable(d: seq<nat>, a: seq<Entry>, e: nat, sym: nat)
    requires IsIdentityTable(a, e, sym)
    requires sym < |d| && d[sym] == ANS_TAB_SIZE && Sum(d) == ANS_TAB_SIZE
    ensures IsAliasTable(d, a, e)
  {
    forall s: nat, o: nat | IsSlot(d, s, o)
      ensures exists v: nat :: v < ANS_TAB_SIZE && LooksUp(a, e, v, s, o)
    {
      if s != sym {
        SumTwoElements(d, s, sym);
      } else {
        assert Lookup(a, o, e) == Symbol(sym, o, ANS_TAB_SIZE);
        assert LooksUp(a, e, o, s, o);
      }
    }
    forall v: nat, w: nat, s: nat, o: nat |
      v < ANS_TAB_SIZE && w < ANS_TAB_SIZE && LooksUp(a, e, v, s, o) && LooksUp(a, e, w, s, o)
      ensures v == w
    {
      assert Lookup(a, v, e).offset == o && Lookup(a, w, e).offset == o;
    }
  }

  // ----- construction -----

  ghost predicate IsStack(st: seq<nat>, n: nat) {
    (forall k | 0 <= k < |st| :: st[k] < n) &&
    (forall j, k | 0 <= j < k < |st| :: st[j] != st[k])
  }

  /** The stacks hold exactly the entries still to be balanced. */
  ghost predicate StacksMatch(over: seq<nat>, under: seq<nat>, c: seq<nat>, filled: set<nat>, e: nat) {
    && IsStack(over, |c|) && IsStack(under, |c|)
    && (forall i: nat | i < |c| :: i in over <==> c[i] > e)
    && (forall i: nat | i < |c| :: i in under <==> c[i] < e && i !in filled)
  }

  /** The two initialization loops: every symbol starts in its own entry. */
  method ClassifyEntries(d: seq<nat>, n: nat, e: nat) returns (cutoffs: array<nat>, over: seq<nat>, under: seq<nat>)
    requires |d| <= n && e > 0
    ensures fresh(cutoffs) && cutoffs.Length == n
    ensures forall i: nat | i < n :: cutoffs[i] == Freq(d, i)
    ensures StacksMatch(over, under, cutoffs[..], {}, e) && IsAscending(over) && IsAscending(under)
  {
    cutoffs := new nat[n];
    over, under := [], [];
    for i := 0 to |d|
      invariant forall k | 0 <= k < i :: cutoffs[k] == d[k]
      invariant IsStack(over, i) && IsStack(under, i) && IsAscending(over) && IsAscending(under)
      invariant forall k: nat | k < i :: (k in over <==> d[k] > e) && (k in under <==> d[k] < e)
    {
      cutoffs[i] := d[i];
      if cutoffs[i] > e {
        over := over + [i];
      } else if cutoffs[i] < e {
        under := under + [i];
      }
    }
    for i := |d| to n
      invariant forall k: nat | k < i :: cutoffs[k] == Freq(d, k)
      invariant IsStack(over, i) && IsStack(under, i) && IsAscending(over) && IsAscending(under)
      invariant forall k: nat | k < i :: (k in over <==> Freq(d, k) > e) && (k in under <==> Freq(d, k) < e)
    {
      cutoffs[i] := 0;
      under := under + [i];
    }
  }

  lemma PopKeepsStack(st: seq<nat>, n: nat)
    requires IsStack(st, n) && st != []
    ensures IsStack(st[..|st| - 1], n) && st[|st| - 1] !in st[..|st| - 1]
    ensures forall x :: x in st <==> x == st[|st| - 1] || x in st[..|st| - 1]
  {
    assert st == st[..|st| - 1] + [st[|st| - 1]];
  }

  /** One round of the reassignment loop keeps the stacks exact. */
  lemma StacksStep(over: seq<nat>, under: seq<nat>, c: seq<nat>, filled: set<nat>, e: nat,
                   c': seq<nat>, over': seq<nat>, under': seq<nat>)
    requires StacksMatch(over, under, c, filled, e) && over != [] && under != []
    requires forall u | u in filled :: u < |c| && c[u] < e
    requires var ov, un := over[|over| - 1], under[|under| - 1];
             c[ov] >= e - c[un] && c' == c[ov := c[ov] - (e - c[un])] &&
             over' == over[..|over| - 1] + (if c'[ov] > e then [ov] else []) &&
             under' == under[..|under| - 1] + (if c'[ov] < e then [ov] else [])
    ensures StacksMatch(over', under', c', filled + {under[|under| - 1]}, e)
  {
    PopKeepsStack(over, |c|);
    PopKeepsStack(under, |c|);
  }

  /** What the reassignment loop keeps. */
  ghost predicate IsBalancing(d: seq<nat>, c: seq<nat>, a: seq<Entry>, filled: set<nat>, e: nat, over: seq<nat>,
                              under: seq<nat>, turn: Turn) {
    && Tiled(d, c, a, filled, e) && StacksMatch(over, under, c, filled, e)
    && InOrder(d, c, a, filled, e, over, under, turn) && Sum(Loads(c, filled, e)) == |c| * e
    && forall k | 0 <= k < |d| :: d[k] <= ANS_TAB_SIZE
  }

  lemma BalancingStarts(d: seq<nat>, c: seq<nat>, a: seq<Entry>, e: nat, over: seq<nat>, under: seq<nat>)
    requires |c| == |a| && |d| <= |c| && (forall k | 0 <= k < |d| :: d[k] <= ANS_TAB_SIZE)
    requires Sum(Loads(c, {}, e)) == |c| * e && forall i: nat | i < |c| :: c[i] == Freq(d, i)
    requires StacksMatch(over, under, c, {}, e) && IsAscending(over) && IsAscending(under)
    ensures IsBalancing(d, c, a, {}, e, over, under, Turn(|c|, |c|))
  {
    hide InOrder, StacksMatch, IsAscending, Sum;
    TiledInit(d, c, a, e);
    OrderInit(d, c, a, e, over, under);
  }

  /** As long as an entry is overfull, both stacks have one. */
  lemma BothOnTop(d: seq<nat>, c: seq<nat>, a: seq<Entry>, filled: set<nat>, e: nat, over: seq<nat>,
                  under: seq<nat>, turn: Turn)
    requires IsBalancing(d, c, a, filled, e, over, under, turn) && over != []
    ensures under != []
    ensures var ov, un := over[|over| - 1], under[|under| - 1];
            ov < |c| && un < |c| && ov != un && un !in filled && ov !in filled &&
            e < c[ov] <= ANS_TAB_SIZE && c[un] < e
  {
    hide InOrder, Sum;
    var ov := over[|over| - 1];
    assert ov in over && c[ov] > e;
    assert ov in filled ==> RightInRange(d, c, a, e, ov);
    UnderfullExists(c, filled, e, ov);
    var un := under[|under| - 1];
    assert un in under;
  }

  /** One round. */
  lemma BalancingStep(d: seq<nat>, c: seq<nat>, a: seq<Entry>, filled: set<nat>, e: nat, over: seq<nat>,
                      under: seq<nat>, turn: Turn, ov: nat, un: nat, left: nat, a': seq<Entry>)
    returns (turn': Turn)
    requires IsBalancing(d, c, a, filled, e, over, under, turn) && |a| <= 0x100
    requires over != [] && ov == over[|over| - 1] && under != [] && un == under[|under| - 1]
    requires ov < |c| && un < |c| && ov != un && un !in filled && ov !in filled
    requires e < c[ov] <= ANS_TAB_SIZE && c[un] < e
    requires |c| == |a| && left == c[ov] - (e - c[un]) && a' == a[un := a[un].(rightValue := ov, offsets1 := left)]
    ensures IsBalancing(d, c[ov := left], a', filled + {un}, e,
                        over[..|over| - 1] + (if left > e then [ov] else []),
                        under[..|under| - 1] + (if left < e then [ov] else []), turn')
  {
    var c' := c[ov := left];
    var over', under' := over[..|over| - 1] + (if left > e then [ov] else []),
                         under[..|under| - 1] + (if left < e then [ov] else []);
    forall u | u in filled ensures u < |c| && c[u] < e {
      assert RightInRange(d, c, a, e, u);
    }
    hide InOrder, Sum, Tiled, StacksMatch, Loads;
    TiledStep(d, c, a, filled, e, ov, un, c', a');
    LoadsStep(c, filled, e, ov, un);
    StacksStep(over, under, c, filled, e, c', over', under');
    turn' := OrderStep(d, c, a, filled, e, over, under, turn, c', a', over', under');
  }

  lemma BalancingEnds(d: seq<nat>, c: seq<nat>, a: seq<Entry>, filled: set<nat>, e: nat, under: seq<nat>, turn: Turn)
    requires IsBalancing(d, c, a, filled, e, [], under, turn)
    ensures Tiled(d, c, a, filled, e) && IsArranged(d, c, a, e)
    ensures forall i: nat | i < |c| :: c[i] <= e && (i in filled || c[i] == e)
  {
    hide InOrder, Sum, Tiled, IsArranged;
    AllFull(c, filled, e);
    OrderDone(d, c, a, filled, e, under, turn);
  }

  /** The overfull entry gives the underfull one what it is short of. */
  method MoveSlots(e: nat, cutoffs: array<nat>, a: array<Entry>, ov: nat, un: nat) returns (left: nat)
    requires a.Length == cutoffs.Length <= 0x100 && ov < a.Length && un < a.Length && ov != un
    requires e < cutoffs[ov] <= ANS_TAB_SIZE && cutoffs[un] < e
    modifies a, cutoffs
    ensures left == old(cutoffs[ov]) - (e - old(cutoffs[un]))
    ensures cutoffs[..] == old(cutoffs[..])[ov := left]
    ensures a[..] == old(a[..])[un := old(a[..])[un].(rightValue := ov, offsets1 := left)]
  {
    var underfullBy := e - cutoffs[un];
    cutoffs[ov] := cutoffs[ov] - underfullBy;
    a[un] := a[un].(rightValue := ov, offsets1 := cutoffs[ov]);
    left := cutoffs[ov];
  }

  /** The reassignment loop. It pops an underfull entry on every round without ever finding none,
      ends with every entry exactly full, and fills them in the order of `IsPlaced`. */
  method Reassign(d: seq<nat>, e: nat, cutoffs: array<nat>, a: array<Entry>, over0: seq<nat>, under0: seq<nat>)
    returns (ghost filled: set<nat>)
    requires a.Length == cutoffs.Length <= 0x100 && |d| <= a.Length
    requires forall k | 0 <= k < |d| :: d[k] <= ANS_TAB_SIZE
    requires Sum(Loads(cutoffs[..], {}, e)) == a.Length * e
    requires forall i: nat | i < a.Length :: cutoffs[i] == Freq(d, i)
    requires StacksMatch(over0, under0, cutoffs[..], {}, e) && IsAscending(over0) && IsAscending(under0)
    modifies a, cutoffs
    ensures Tiled(d, cutoffs[..], a[..], filled, e) && IsArranged(d, cutoffs[..], a[..], e)
    ensures forall i: nat | i < a.Length :: cutoffs[i] <= e && (i in filled || cutoffs[i] == e)
  {
    hide Tiled, StacksMatch, InOrder, IsAscending, IsArranged, Loads, Sum, IsBalancing;
    var over, under := over0, under0;
    filled := {};
    ghost var turn := Turn(a.Length, a.Length);
    BalancingStarts(d, cutoffs[..], a[..], e, over, under);
    while over != []
      invariant IsBalancing(d, cutoffs[..], a[..], filled, e, over, under, turn)
      decreases |over| + |under|
    {
      ghost var c, t := cutoffs[..], a[..];
      ghost var allOver, allUnder := over, under;
      BothOnTop(d, c, t, filled, e, over, under, turn);
      var ov, un := over[|over| - 1], under[|under| - 1];
      over := over[..|over| - 1];
      under := under[..|under| - 1];
      var left := MoveSlots(e, cutoffs, a, ov, un);
      turn := BalancingStep(d, c, t, filled, e, allOver, allUnder, turn, ov, un, left, a[..]);
      assert over + [] == over && under + [] == under;
      if left < e {
        under := under + [ov];
      } else if left > e {
        over := over + [ov];
      }
      filled := filled + {un};
    }
    BalancingEnds(d, cutoffs[..], a[..], filled, e, under, turn);
    assert forall i: nat | i < a.Length :: cutoffs[i] == cutoffs[..][i];
  }

  /** The last loop: cutoffs, frequencies and relative offsets. */
  method Finish(d: seq<nat>, e: nat, cutoffs: array<nat>, a: array<Entry>)
    requires a.Length == cutoffs.Length <= 0x100 && e <= 0x100
    requires forall k | 0 <= k < |d| :: d[k] <= ANS_TAB_SIZE
    requires forall i: nat | i < a.Length :: cutoffs[i] <= e && (cutoffs[i] < e ==> a[i].offsets1 >= cutoffs[i])
    modifies a
    ensures forall i: nat | i < a.Length :: a[i] == FinalEntry(d, cutoffs[i], e, old(a[i]), i)
  {
    for i := 0 to a.Length
      invariant forall k | i <= k < a.Length :: a[k] == old(a[k])
      invariant forall k: nat | k < i :: a[k] == FinalEntry(d, cutoffs[k], e, old(a[k]), k)
    {
      if cutoffs[i] == e {
        a[i] := a[i].(rightValue := i, offsets1 := 0, cutoff := 0);
      } else {
        a[i] := a[i].(offsets1 := a[i].offsets1 - cutoffs[i], cutoff := cutoffs[i]);
      }
      var freq0 := Freq(d, i);
      var freq1 := Freq(d, a[i].rightValue);
      a[i] := a[i].(freq0 := freq0, freq1XorFreq0 := FreqXor(freq1, freq0));
    }
  }

  lemma TiledOffsets(d: seq<nat>, c: seq<nat>, raw: seq<Entry>, filled: set<nat>, e: nat)
    requires Tiled(d, c, raw, filled, e)
    requires forall i: nat | i < |c| :: c[i] <= e && (i in filled || c[i] == e)
    ensures forall i: nat | i < |c| && c[i] < e :: raw[i].offsets1 >= c[i]
  {
    forall i: nat | i < |c| && c[i] < e ensures raw[i].offsets1 >= c[i] {
      assert RightInRange(d, c, raw, e, i);
    }
  }

  lemma FinishedIsAliasTable(d: seq<nat>, c: seq<nat>, raw: seq<Entry>, a: seq<Entry>, filled: set<nat>, e: nat)
    requires Finished(d, c, raw, a, filled, e) && e > 0 && |c| * e == ANS_TAB_SIZE
    ensures IsAliasTable(d, a, e)
  {
    FinishedIsSound(d, c, raw, a, filled, e);
    FinishedIsInjective(d, c, raw, a, filled, e);
    FinishedIsSurjective(d, c, raw, a, filled, e);
  }

  lemma TableSizes(logAlphaSize: nat)
    requires 4 <= logAlphaSize <= 8
    ensures Pow2(logAlphaSize) * Pow2(ANS_LOG_TAB_SIZE - logAlphaSize) == ANS_TAB_SIZE
    ensures Pow2(logAlphaSize) <= 0x100 && 0 < Pow2(ANS_LOG_TAB_SIZE - logAlphaSize) <= 0x100
  {
    Pow2Add(logAlphaSize, ANS_LOG_TAB_SIZE - logAlphaSize);
    Pow2Small();
    Pow2Monotone(logAlphaSize, 8);
    Pow2Monotone(ANS_LOG_TAB_SIZE - logAlphaSize, 8);
  }

  lemma NormalizedSum(d: seq<nat>)
    requires Trimmed(d) != [] ==> Sum(d) == ANS_TAB_SIZE
    ensures Sum(Normalized(d)) == ANS_TAB_SIZE && Normalized(d) != []
    ensures forall k | 0 <= k < |Normalized(d)| :: Normalized(d)[k] <= ANS_TAB_SIZE
  {
    TrimmedSum(d);
    var n := Normalized(d);
    if Trimmed(d) == [] {
      SumAppend([], ANS_TAB_SIZE);
      assert n == [] + [ANS_TAB_SIZE];
    }
    forall k | 0 <= k < |n| ensures n[k] <= ANS_TAB_SIZE {
      SumElement(n, k);
    }
  }

  lemma InitialLoads(d: seq<nat>, c: seq<nat>, e: nat)
    requires |d| <= |c| && forall i: nat | i < |c| :: c[i] == Freq(d, i)
    ensures Sum(Loads(c, {}, e)) == Sum(d)
  {
    var rest := Loads(c, {}, e)[|d|..];
    SumConcat(d, rest);
    SumConstant(rest, 0);
    assert Loads(c, {}, e) == d + rest;
  }

  /** Builds the alias table of a distribution. The result is a bijection onto the distribution's
      slots, the one that `IsFilledInOrder` describes; for a single-symbol distribution it is the identity on
      offsets. */
  method InitAliasTable(distribution: seq<nat>, logAlphaSize: nat, a: array<Entry>)
    requires 4 <= logAlphaSize <= 8 && a.Length == Pow2(logAlphaSize)
    requires Trimmed(distribution) != [] ==> Sum(distribution) == ANS_TAB_SIZE
    requires |Trimmed(distribution)| <= a.Length
    modifies a
    ensures IsAliasTable(Normalized(distribution), a[..], Pow2(ANS_LOG_TAB_SIZE - logAlphaSize))
    ensures forall sym: nat | Freq(Normalized(distribution), sym) == ANS_TAB_SIZE ::
              IsIdentityTable(a[..], Pow2(ANS_LOG_TAB_SIZE - logAlphaSize), sym)
    ensures (forall sym: nat :: Freq(Normalized(distribution), sym) != ANS_TAB_SIZE) ==>
              IsFilledInOrder(Normalized(distribution), a[..], Pow2(ANS_LOG_TAB_SIZE - logAlphaSize))
  {
    var d := distribution;
    while d != [] && d[|d| - 1] == 0
      invariant Trimmed(d) == Trimmed(distribution)
    {
      d := d[..|d| - 1];
    }
    if d == [] {
      d := [ANS_TAB_SIZE];
    }
    TableSizes(logAlphaSize);
    NormalizedSum(distribution);
    assert d == Normalized(distribution) && |d| <= a.Length;
    var entrySize := Pow2(ANS_LOG_TAB_SIZE - logAlphaSize);
    for sym := 0 to |d|
      invariant forall k | 0 <= k < sym :: d[k] != ANS_TAB_SIZE
    {
      if d[sym] == ANS_TAB_SIZE {
        FillSingle(a, entrySize, sym);
        IdentityIsAliasTable(d, a[..], entrySize, sym);
        assert Freq(Normalized(distribution), sym) == ANS_TAB_SIZE;
        forall other: nat | Freq(d, other) == ANS_TAB_SIZE ensures other == sym {
          if other != sym {
            SumTwoElements(d, other, sym);
          }
        }
        return;
      }
    }
    FillShared(d, entrySize, a);
  }

  /** The table of a distribution with several symbols. */
  method FillShared(d: seq<nat>, e: nat, a: array<Entry>)
    requires 0 < e <= 0x100 && a.Length <= 0x100 && a.Length * e == ANS_TAB_SIZE && |d| <= a.Length
    requires Sum(d) == ANS_TAB_SIZE && forall k | 0 <= k < |d| :: d[k] <= ANS_TAB_SIZE
    modifies a
    ensures IsAliasTable(d, a[..], e) && IsFilledInOrder(d, a[..], e)
  {
    hide Tiled, StacksMatch, IsAscending, IsArranged, Loads, Sum, IsAliasTable, IsFilledInOrder, Finished;
    var cutoffs, over, under := ClassifyEntries(d, a.Length, e);
    InitialLoads(d, cutoffs[..], e);
    ghost var filled := Reassign(d, e, cutoffs, a, over, under);
    ghost var raw := a[..];
    TiledOffsets(d, cutoffs[..], raw, filled, e);
    Finish(d, e, cutoffs, a);
    NowFinished(d, cutoffs[..], raw, a[..], filled, e);
    FinishedIsAliasTable(d, cutoffs[..], raw, a[..], filled, e);
    FinishedInOrder(d, cutoffs[..], raw, a[..], filled, e);
  }

  lemma NowFinished(d: seq<nat>, c: seq<nat>, raw: seq<Entry>, a: seq<Entry>, filled: set<nat>, e: nat)
    requires e <= 0x100 && |c| <= 0x100 && |a| == |raw| && forall k | 0 <= k < |d| :: d[k] <= ANS_TAB_SIZE
    requires Tiled(d, c, raw, filled, e) && forall i: nat | i < |c| :: c[i] <= e && (i in filled || c[i] == e)
    requires |c| == |a| && forall i: nat | i < |c| ::
               (c[i] < e ==> raw[i].offsets1 >= c[i]) && a[i] == FinalEntry(d, c[i], e, raw[i], i)
    ensures Finished(d, c, raw, a, filled, e)
  {
    hide Tiled, FinalEntry;
  }

  method FillSingle(a: array<Entry>, entrySize: nat, sym: UInt8)
    requires entrySize > 0 && a.Length * entrySize == ANS_TAB_SIZE
    modifies a
    ensures IsIdentityTable(a[..], entrySize, sym)
  {
    for i := 0 to a.Length
      invariant forall k: nat | k < i ::
          entrySize * k < 0x1_0000 && a[k] == Entry(0, sym, 0, entrySize * k, ANS_TAB_SIZE)
    {
      MulMonotone(i, a.Length, entrySize);
      a[i] := a[i].(rightValue := sym, cutoff := 0, offsets1 := entrySize * i, freq0 := 0,
                    freq1XorFreq0 := ANS_TAB_SIZE);
    }
    IdentityIsIdentity(a[..], entrySize, sym);
  }
}
