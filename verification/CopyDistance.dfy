/** Which values an LZ77 copy takes (lib/jxl/dec_ans.h:116-135, 172-187, 318-343): the table of short distances,
and the distance that a code stands for.
 */
module CopyDistances {
  import opened Bits
  import opened BitReading
  import opened AliasTable
  import opened Rans
  import opened HybridUint
  import opened History
  import opened SymbolSpec
  import opened TokenStream
  import opened Sequences

  // ----- the table of short distances -----

  /** The offsets of the pixels above, up to seven rows and seven columns to the left or eight to the right,
      and of the eight pixels before in the same row. */
  predicate IsShortOffset(o: (int, int)) {
    0 <= o.1 <= 7 && -7 <= o.0 <= 8 && (o.1 > 0 || o.0 > 0)
  }

  function Square(x: int): int {
    x * x
  }

  function Norm(o: (int, int)): int {
    Square(o.0) + Square(o.1)
  }

  function Abs(x: int): int {
    if x < 0 then -x else x
  }

  /** Nearer ones first, then those in nearer columns, then those to the right. */
  predicate ComesBefore(a: (int, int), b: (int, int)) {
    Norm(a) < Norm(b) ||
    (Norm(a) == Norm(b) && (Abs(a.0) < Abs(b.0) || (Abs(a.0) == Abs(b.0) && a.0 > b.0)))
  }

  lemma Squares()
    ensures Square(0) == 0 && Square(1) == Square(-1) == 1 && Square(2) == Square(-2) == 4
    ensures Square(3) == Square(-3) == 9 && Square(4) == Square(-4) == 16 && Square(5) == Square(-5) == 25
    ensures Square(6) == Square(-6) == 36 && Square(7) == Square(-7) == 49 && Square(8) == 64
  {
  }

  function InTable(r: nat, c: nat): (o: (int, int))
    requires r < 15 && c < 8
  {
    assert |SPECIAL_ROWS| == 15 && forall r | 0 <= r < 15 :: |SPECIAL_ROWS[r]| == 8;
    SPECIAL_ROWS[r][c]
  }

  lemma InRow(r: nat, c: nat)
    requires r < 15 && c < 8
    ensures IsShortOffset(InTable(r, c))
  {
  }

  lemma NextInRow(r: nat, c: nat)
    requires r < 15 && c < 7
    ensures ComesBefore(InTable(r, c), InTable(r, c + 1))
  {
    Squares();
    hide Square;
  }

  lemma NextRow(r: nat)
    requires r < 14
    ensures ComesBefore(InTable(r, 7), InTable(r + 1, 0))
  {
    Squares();
    hide Square;
  }

  lemma NextOffset(k: nat)
    requires k < 119
    ensures ComesBefore(SpecialOffset(k), SpecialOffset(k + 1))
  {
    hide ComesBefore;
    var r, c := k / 8, k % 8;
    assert SpecialOffset(k) == InTable(r, c);
    if c < 7 {
      NextInRow(r, c);
      assert SpecialOffset(k + 1) == InTable(r, c + 1) by { TablePlace(r, c + 1); }
    } else {
      NextRow(r);
      assert SpecialOffset(k + 1) == InTable(r + 1, 0) by { TablePlace(r + 1, 0); }
    }
  }

  lemma TablePlace(r: nat, c: nat)
    requires r < 15 && c < 8
    ensures SpecialOffset(8 * r + c) == InTable(r, c)
  {
    DivModUnique(8 * r + c, 8, r, c);
  }

  lemma {:induction false} OffsetsAscend(j: nat, k: nat)
    requires j < k < 120
    ensures ComesBefore(SpecialOffset(j), SpecialOffset(k))
    decreases k
  {
    hide SpecialOffset, Square;
    NextOffset(k - 1);
    if j < k - 1 {
      OffsetsAscend(j, k - 1);
    }
  }

  // ----- every short offset is listed -----

  /** The number of a short offset, row by row. */
  function NumberOf(o: (int, int)): (v: nat)
    requires IsShortOffset(o)
    ensures v < NUM_SPECIAL
  {
    16 * o.1 + o.0 - 1
  }

  function Below(n: nat): (r: set<nat>)
    ensures forall v: nat :: v in r <==> v < n
    ensures |r| == n
  {
    if n == 0 then {} else Below(n - 1) + {n - 1}
  }

  function Members(q: seq<nat>): (r: set<nat>)
    ensures forall v: nat :: v in r <==> v in q
  {
    set v: nat | v in q
  }

  lemma {:induction false} DistinctCount(q: seq<nat>)
    requires forall i, j | 0 <= i < j < |q| :: q[i] != q[j]
    ensures |Members(q)| == |q|
  {
    if q == [] {
      assert Members(q) == {};
    } else {
      var rest, last := q[..|q| - 1], q[|q| - 1];
      assert q == rest + [last];
      DistinctCount(rest);
      assert Members(q) == Members(rest) + {last} && last !in Members(rest);
    }
  }

  /** Distinct numbers below their count are all of them. */
  lemma AllListed(q: seq<nat>, v: nat)
    requires (forall i, j | 0 <= i < j < |q| :: q[i] != q[j]) && (forall i | 0 <= i < |q| :: q[i] < |q|) && v < |q|
    ensures v in q
  {
    DistinctCount(q);
    if v !in q {
      assert Members(q) <= Below(|q|) - {v};
      SubsetCount(Members(q), Below(|q|) - {v});
    }
  }

  lemma {:induction false} SubsetCount(a: set<nat>, b: set<nat>)
    requires a <= b
    ensures |a| <= |b|
    decreases a
  {
    if a != {} {
      var x :| x in a;
      SubsetCount(a - {x}, b - {x});
    }
  }

  lemma Listed(o: (int, int)) returns (k: nat)
    requires IsShortOffset(o)
    ensures k < NUM_SPECIAL && SpecialOffset(k) == o
  {
    hide SpecialOffset, ComesBefore;
    forall k: nat | k < NUM_SPECIAL ensures IsShortOffset(SpecialOffset(k)) {
      OffsetIsShort(k);
    }
    var q := seq(NUM_SPECIAL, k requires 0 <= k < NUM_SPECIAL => NumberOf(SpecialOffset(k)));
    forall i, j | 0 <= i < j < NUM_SPECIAL ensures q[i] != q[j] {
      OffsetsAscend(i, j);
      OffsetsDiffer(SpecialOffset(i), SpecialOffset(j));
    }
    AllListed(q, NumberOf(o));
    k :| k < NUM_SPECIAL && q[k] == NumberOf(o);
  }

  lemma OffsetsDiffer(a: (int, int), b: (int, int))
    requires ComesBefore(a, b)
    ensures a != b
  {
  }

  lemma OffsetIsShort(k: nat)
    requires k < NUM_SPECIAL
    ensures IsShortOffset(SpecialOffset(k))
  {
    hide IsShortOffset;
    InRow(k / 8, k % 8);
  }

  /** The table lists every short offset once, in this order, and nothing else. */
  lemma TableIsSorted()
    ensures forall k: nat | k < NUM_SPECIAL :: IsShortOffset(SpecialOffset(k))
    ensures forall j: nat, k: nat | j < k < NUM_SPECIAL :: ComesBefore(SpecialOffset(j), SpecialOffset(k))
    ensures forall o | IsShortOffset(o) :: exists k: nat :: k < NUM_SPECIAL && SpecialOffset(k) == o
  {
    hide SpecialOffset, ComesBefore, IsShortOffset;
    forall k: nat | k < NUM_SPECIAL ensures IsShortOffset(SpecialOffset(k)) {
      OffsetIsShort(k);
    }
    forall j: nat, k: nat | j < k < NUM_SPECIAL ensures ComesBefore(SpecialOffset(j), SpecialOffset(k)) {
      OffsetsAscend(j, k);
    }
    forall o | IsShortOffset(o) ensures exists k: nat :: k < NUM_SPECIAL && SpecialOffset(k) == o {
      var k := Listed(o);
    }
  }

  // ----- the distance of a code -----

  /** Each new value equals the one `d` positions before it. */
  ghost predicate TakesBack(h: seq<nat>, values: seq<nat>, d: nat) {
    0 < d <= |h| && forall i | |h| <= i < |h| + |values| :: (h + values)[i] == (h + values)[i - d]
  }

  lemma {:induction false} CopyTakesBack(h: seq<nat>, d: nat, n: nat)
    requires 0 < d <= |h|
    ensures TakesBack(h, CopyValues(h, d, n), d)
    decreases n
  {
    if n > 0 {
      var x := h[|h| - d];
      CopyTakesBack(h + [x], d, n - 1);
      var rest := CopyValues(h + [x], d, n - 1);
      assert h + CopyValues(h, d, n) == h + [x] + rest;
    }
  }

  /** What a reader gets from a copy, in front of its two tokens. */
  lemma CopyIsRead(code: Code, s: seq<bool>, st: State, h: seq<nat>, item: Item, rest: seq<Token>, end: nat, d: nat)
    requires code.Valid() && st.Valid(code) && item.Copy? && ItemOk(code, item)
    requires AllEncodable(code, ItemTokens(code, item) + rest)
    requires Ready(code, s, st, h, ItemTokens(code, item) + rest, end)
    requires h != [] && d == ClampedDistance(code, item.distanceCode, |h|)
    ensures Contexts(code, ItemContexts(item))
    ensures var values := ReadMany(code, s, st, ItemContexts(item)).values;
            |values| == item.length && TakesBack(h, values, d)
  {
    ReadItem(code, s, st, h, item, rest, end);
    hide Code.Valid, State.Valid, ItemOk, Ready, AllEncodable, ReadMany, TakesBack, ClampedDistance;
    CopyTakesBack(h, d, item.length);
  }

  /** Behind the special distances, code after code, come the distances 1, 2, 3 and so on, as far as the history
      and the window of 2^20 values reach. */
  lemma LongDistance(code: Code, s: seq<bool>, st: State, h: seq<nat>, item: Item, rest: seq<Token>, end: nat, d: nat)
    requires code.Valid() && st.Valid(code) && item.Copy? && ItemOk(code, item)
    requires AllEncodable(code, ItemTokens(code, item) + rest)
    requires Ready(code, s, st, h, ItemTokens(code, item) + rest, end)
    requires 1 <= d && h != [] && item.distanceCode == |code.specialDistances| + d - 1
    ensures Contexts(code, ItemContexts(item))
    ensures var values := ReadMany(code, s, st, ItemContexts(item)).values;
            |values| == item.length && TakesBack(h, values, Min(Min(d, |h|), 0x10_0000))
  {
    DistanceOf(code, item.distanceCode, |h|, d);
    hide Code.Valid, State.Valid, ItemOk, Ready, AllEncodable, ReadMany, TakesBack, ClampedDistance;
    CopyIsRead(code, s, st, h, item, rest, end, Min(Min(d, |h|), 0x10_0000));
  }

  /** With an image width, a code below 120 stands for the pixel at the offset in the table, or for the value
      just before if that is not behind the current one. */
  lemma ShortDistance(code: Code, s: seq<bool>, st: State, h: seq<nat>, item: Item, rest: seq<Token>, end: nat,
                      width: nat, dx: int, dy: int, d: nat)
    requires code.Valid() && st.Valid(code) && item.Copy? && ItemOk(code, item)
    requires AllEncodable(code, ItemTokens(code, item) + rest)
    requires Ready(code, s, st, h, ItemTokens(code, item) + rest, end)
    requires h != [] && width > 0 && code.specialDistances == SpecialDistances(width)
    requires item.distanceCode < 120 && SpecialOffset(item.distanceCode) == (dx, dy)
    requires d == if dx + width * dy >= 1 then dx + width * dy else 1
    ensures Contexts(code, ItemContexts(item))
    ensures var values := ReadMany(code, s, st, ItemContexts(item)).values;
            |values| == item.length && TakesBack(h, values, Min(Min(d, |h|), 0x10_0000))
  {
    hide Code.Valid, State.Valid, ItemOk, Ready, AllEncodable, ReadMany, TakesBack, ClampedDistance, SpecialDistances,
         SpecialOffset;
    SpecialDistanceIs(width, item.distanceCode);
    DistanceOf(code, item.distanceCode, |h|, d);
    CopyIsRead(code, s, st, h, item, rest, end, Min(Min(d, |h|), 0x10_0000));
  }

  lemma SpecialDistanceIs(width: nat, k: nat)
    requires k < 120 && width > 0
    ensures |SpecialDistances(width)| == 120
    ensures var (dx, dy) := SpecialOffset(k);
            SpecialDistances(width)[k] == if dx + width * dy >= 1 then dx + width * dy else 1
  {
    hide SpecialOffset;
  }

  lemma DistanceOf(code: Code, distanceCode: nat, decoded: nat, d: nat)
    requires code.Valid() && d >= 1
    requires if distanceCode < |code.specialDistances| then code.specialDistances[distanceCode] == d
             else distanceCode == |code.specialDistances| + d - 1
    ensures ClampedDistance(code, distanceCode, decoded) == Min(Min(d, decoded), 0x10_0000)
  {
  }
}
