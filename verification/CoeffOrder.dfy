/** The natural coefficient order (lib/jxl/ac_strategy.cc:19-84): a zig-zag over the square block,
thinned out to the rows that a rectangular block has, with the low-frequency cells moved to the front.
 */
module CoeffOrder {
  import opened Bits
  import opened Lehmer
  import opened UintConfigs
  import opened Sequences

  datatype Cell = Cell(x: nat, y: nat)

  /** Covered blocks after `CoefficientLayout`: `cx` columns and `cy` rows, cx == cy * 2^k. */
  datatype Shape = Shape(cx: nat, cy: nat, k: nat) {
    ghost predicate Valid() {
      cy > 0 && cx == Shl(cy, k)
    }

    /** The side of the square that is walked. */
    function Side(): nat {
      8 * cx
    }

    function Llf(): nat {
      cx * cy
    }

    function Size(): nat {
      8 * cx * (8 * cy)
    }

    predicate Has(c: Cell) {
      c.x < 8 * cx && c.y < 8 * cy
    }

    /** One of the cx * cy low-frequency cells. */
    predicate IsLow(c: Cell) {
      c.x < cx && c.y < cy
    }

    function Position(c: Cell): nat {
      c.y * (8 * cx) + c.x
    }

    function LowIndex(c: Cell): nat {
      c.y * cx + c.x
    }

    // ----- the walk -----

    /** The row of the square that becomes row `c.y`. */
    function Row(c: Cell): nat {
      Shl(c.y, k)
    }

    function Diagonal(c: Cell): nat {
      c.x + Row(c)
    }

    /** The step at which the walk reaches the cell on its diagonal; diagonals alternate in direction. */
    function Along(c: Cell): int {
      if Diagonal(c) < Side() then if Diagonal(c) % 2 == 0 then c.x else Row(c)
      else Side() - 1 - if Diagonal(c) % 2 == 0 then Row(c) else c.x
    }

    predicate Precedes(c: Cell, d: int, j: int) {
      Diagonal(c) < d || (Diagonal(c) == d && Along(c) < j)
    }

    predicate Before(a: Cell, b: Cell) {
      Precedes(a, Diagonal(b), Along(b))
    }

    /** `tail` lists, in zig-zag order, the cells outside the low-frequency corner that come before step
        `j` of diagonal `d`. */
    ghost predicate IsZigZag(tail: seq<Cell>, d: int, j: int) {
      && (forall m | 0 <= m < |tail| :: Has(tail[m]) && !IsLow(tail[m]) && Precedes(tail[m], d, j))
      && (forall m, n | 0 <= m < n < |tail| :: Before(tail[m], tail[n]))
      && (forall c | Has(c) && !IsLow(c) && Precedes(c, d, j) :: c in tail)
    }

    function LowCell(i: nat): Cell
      requires cx > 0
    {
      DivMod(i, cx);
      Cell(i % cx, i / cx)
    }

    function LowCells(): (s: seq<Cell>)
      requires cx > 0
      ensures |s| == Llf()
    {
      seq(Llf(), i requires 0 <= i => LowCell(i))
    }
  }

  // ----- positions -----

  lemma CxPositive(s: Shape)
    requires s.Valid()
    ensures s.cx > 0 && s.cx >= s.cy
  {
    ShlAtLeast(s.cy, s.k);
  }

  lemma {:induction false} ShlAtLeast(v: nat, n: nat)
    ensures Shl(v, n) >= v
    decreases n
  {
    if n > 0 {
      ShlAtLeast(v, n - 1);
    }
  }

  lemma {:induction false} ShlTimes(v: nat, n: nat)
    ensures Shl(8 * v, n) == 8 * Shl(v, n)
    decreases n
  {
    if n > 0 {
      ShlTimes(v, n - 1);
    }
  }

  /** A cell of the block is a cell of the square, in a row that the thinning keeps. */
  lemma InSquare(s: Shape, c: Cell)
    requires s.Valid()
    ensures s.Has(c) <==> c.x < s.Side() && s.Row(c) < s.Side()
  {
    ShlLess(c.y, 8 * s.cy, s.k);
    ShlTimes(s.cy, s.k);
  }

  lemma PositionParts(s: Shape, c: Cell)
    requires s.Valid() && s.Has(c)
    ensures s.Position(c) < s.Size()
    ensures s.Position(c) / (8 * s.cx) == c.y && s.Position(c) % (8 * s.cx) == c.x
  {
    DivModUnique(s.Position(c), 8 * s.cx, c.y, c.x);
    MulMonotone(c.y + 1, 8 * s.cy, 8 * s.cx);
    assert (c.y + 1) * (8 * s.cx) == c.y * (8 * s.cx) + 8 * s.cx;
  }

  lemma PositionsApart(s: Shape, a: Cell, b: Cell)
    requires s.Valid() && s.Has(a) && s.Has(b)
    ensures s.Position(a) == s.Position(b) <==> a == b
  {
    PositionParts(s, a);
    PositionParts(s, b);
  }

  lemma CellAt(s: Shape, p: nat) returns (c: Cell)
    requires s.Valid() && p < s.Size()
    ensures s.Has(c) && s.Position(c) == p
  {
    CxPositive(s);
    DivMod(p, 8 * s.cx);
    IndexInRange(p, 8 * s.cx, 8 * s.cy);
    c := Cell(p % (8 * s.cx), p / (8 * s.cx));
  }

  lemma LowIndexParts(s: Shape, c: Cell)
    requires s.Valid() && s.IsLow(c)
    ensures s.LowIndex(c) < s.Llf() && s.LowCell(s.LowIndex(c)) == c && s.Has(c)
  {
    CxPositive(s);
    DivModUnique(s.LowIndex(c), s.cx, c.y, c.x);
    MulMonotone(c.y + 1, s.cy, s.cx);
    assert (c.y + 1) * s.cx == c.y * s.cx + s.cx;
  }

  lemma LowCellParts(s: Shape, i: nat)
    requires s.Valid() && i < s.Llf()
    ensures s.cx > 0 && s.IsLow(s.LowCell(i)) && s.LowIndex(s.LowCell(i)) == i
  {
    CxPositive(s);
    DivMod(i, s.cx);
    IndexInRange(i, s.cx, s.cy);
  }

  // ----- the walk reaches every cell once -----

  /** The steps of a diagonal that stay inside the square. */
  function Steps(s: Shape, d: nat): int {
    if d < s.Side() then d + 1 else 2 * s.Side() - 1 - d
  }

  lemma AlongBounds(s: Shape, c: Cell)
    requires s.Valid() && s.Has(c)
    ensures 0 <= s.Along(c) < Steps(s, s.Diagonal(c)) && s.Diagonal(c) < 2 * s.Side() - 1
  {
    InSquare(s, c);
  }

  /** The square cell that step `j` of diagonal `d` visits. */
  function Visited(s: Shape, d: nat, j: nat): (r: (int, int))
    requires d < 2 * s.Side() - 1 && j < Steps(s, d)
    ensures 0 <= r.0 < s.Side() && 0 <= r.1 < s.Side() && r.0 + r.1 == d
  {
    var near, far := if d < s.Side() then j else d - (s.Side() - 1 - j),
                     if d < s.Side() then d - j else s.Side() - 1 - j;
    if d % 2 == 0 then (near, far) else (far, near)
  }

  lemma VisitedAlong(s: Shape, c: Cell, d: nat, j: nat)
    requires s.Valid() && d < 2 * s.Side() - 1 && j < Steps(s, d) && s.Has(c)
    ensures s.Diagonal(c) == d && s.Along(c) == j <==> (c.x, s.Row(c)) == Visited(s, d, j)
  {
    InSquare(s, c);
  }

  lemma RowOf(s: Shape, x: nat, y: nat, c: Cell)
    requires s.Valid()
    ensures (c.x, s.Row(c)) == (x, y) <==> Low(y, s.k) == 0 && c == Cell(x, Shr(y, s.k))
  {
    ShiftSplit(y, s.k);
    Pow2Small();
    ShiftJoin(c.y, 0, s.k);
  }

  /** Rows that the block does not have are skipped. */
  lemma SkipStep(s: Shape, tail: seq<Cell>, d: nat, j: nat)
    requires s.Valid() && d < 2 * s.Side() - 1 && j < Steps(s, d) && s.IsZigZag(tail, d, j)
    requires Low(Visited(s, d, j).1, s.k) != 0
    ensures s.IsZigZag(tail, d, j + 1)
  {
    var (x, y) := Visited(s, d, j);
    forall c | s.Has(c) && !s.IsLow(c) && s.Precedes(c, d, j + 1) ensures c in tail {
      VisitedAlong(s, c, d, j);
      RowOf(s, x, y, c);
    }
  }

  lemma VisitStep(s: Shape, tail: seq<Cell>, d: nat, j: nat)
    requires s.Valid() && d < 2 * s.Side() - 1 && j < Steps(s, d) && s.IsZigZag(tail, d, j)
    requires Low(Visited(s, d, j).1, s.k) == 0
    ensures var c := Cell(Visited(s, d, j).0, Shr(Visited(s, d, j).1, s.k));
            s.Has(c) && s.Diagonal(c) == d && s.Along(c) == j && s.Row(c) == Visited(s, d, j).1 &&
            s.IsZigZag(if s.IsLow(c) then tail else tail + [c], d, j + 1)
  {
    var (x, y) := Visited(s, d, j);
    var c := Cell(x, Shr(y, s.k));
    RowOf(s, x, y, c);
    InSquare(s, c);
    VisitedAlong(s, c, d, j);
    forall b | s.Has(b) && !s.IsLow(b) && s.Precedes(b, d, j + 1) ensures b in tail || b == c {
      VisitedAlong(s, b, d, j);
      RowOf(s, x, y, b);
    }
  }

  lemma NextDiagonal(s: Shape, tail: seq<Cell>, d: nat)
    requires s.Valid() && s.IsZigZag(tail, d, Steps(s, d))
    ensures s.IsZigZag(tail, d + 1, 0)
  {
    forall c | s.Has(c) && !s.IsLow(c) && s.Precedes(c, d + 1, 0) ensures c in tail {
      AlongBounds(s, c);
    }
  }

  // ----- the order as a whole -----

  /** Low-frequency cells row by row, then all others in zig-zag order. */
  ghost predicate IsNaturalOrder(s: Shape, cells: seq<Cell>)
    requires s.Valid()
  {
    CxPositive(s);
    s.Llf() <= |cells| && cells[..s.Llf()] == s.LowCells() && s.IsZigZag(cells[s.Llf()..], 2 * s.Side() - 1, 0)
  }

  function Positions(s: Shape, cells: seq<Cell>): (p: seq<nat>)
    ensures |p| == |cells|
  {
    seq(|cells|, i requires 0 <= i < |cells| => s.Position(cells[i]))
  }

  ghost function Elements(p: seq<nat>): set<nat> {
    set v | v in p
  }

  lemma {:induction false} DistinctSize(p: seq<nat>)
    ensures |Elements(p)| <= |p|
    ensures Distinct(p) ==> |Elements(p)| == |p|
  {
    if p != [] {
      var n := |p| - 1;
      var q, last := p[..n], p[n];
      DistinctSize(q);
      assert p == q + [last];
      assert Elements(p) == Elements(q) + {last};
      if last in q {
        var i :| 0 <= i < n && q[i] == last;
        assert p[i] == p[n] && Elements(p) == Elements(q);
      }
    }
  }

  lemma Subset(a: set<nat>, b: set<nat>)
    requires a <= b
    ensures |a| <= |b|
  {
    assert b == a + (b - a);
  }

  /** Distinct numbers below `n`: there are at most `n`, and exactly `n` if none is missing. */
  lemma DistinctBelow(p: seq<nat>, n: nat)
    requires Distinct(p) && forall i | 0 <= i < |p| :: p[i] < n
    ensures |p| <= n
    ensures (forall v: nat | v < n :: v in p) ==> |p| == n
  {
    var all := Range(0, n);
    DistinctSize(p);
    DistinctSize(all);
    forall v | v in p ensures v in all {
      assert all[v] == v;
    }
    Subset(Elements(p), Elements(all));
    if forall v: nat | v < n :: v in p {
      Subset(Elements(all), Elements(p));
    }
  }

  /** The low-frequency cells and a tail are all different. */
  lemma CellsDistinct(s: Shape, tail: seq<Cell>, d: int, j: int)
    requires s.Valid() && s.cx > 0 && s.IsZigZag(tail, d, j)
    ensures Distinct(Positions(s, s.LowCells() + tail))
    ensures forall i | 0 <= i < s.Llf() + |tail| :: s.Has((s.LowCells() + tail)[i]) &&
              Positions(s, s.LowCells() + tail)[i] < s.Size()
  {
    var cells := s.LowCells() + tail;
    forall i: nat | i < |cells| ensures s.Has(cells[i]) && Positions(s, cells)[i] < s.Size() &&
      (if i < s.Llf() then s.IsLow(cells[i]) && s.LowIndex(cells[i]) == i else !s.IsLow(cells[i])) {
      if i < s.Llf() {
        LowCellParts(s, i);
        LowIndexParts(s, s.LowCell(i));
      } else {
        assert cells[i] == tail[i - s.Llf()];
      }
      PositionParts(s, cells[i]);
    }
    forall i: nat, k: nat | i < k < |cells| ensures Positions(s, cells)[i] != Positions(s, cells)[k] {
      if i >= s.Llf() {
        assert s.Before(tail[i - s.Llf()], tail[k - s.Llf()]);
      }
      PositionsApart(s, cells[i], cells[k]);
    }
  }

  lemma TailRoom(s: Shape, tail: seq<Cell>, d: int, j: int)
    requires s.Valid() && s.IsZigZag(tail, d, j)
    ensures s.Llf() + |tail| <= s.Size()
  {
    CxPositive(s);
    CellsDistinct(s, tail, d, j);
    DistinctBelow(Positions(s, s.LowCells() + tail), s.Size());
  }

  /** The natural order is a permutation of all positions that starts with the low-frequency cells. */
  lemma NaturalIsPermutation(s: Shape, cells: seq<Cell>)
    requires s.Valid() && IsNaturalOrder(s, cells)
    ensures |cells| == s.Size() && IsPermutation(Positions(s, cells))
    ensures forall i: nat | i < s.Llf() :: s.cx > 0 && Positions(s, cells)[i] == i / s.cx * (8 * s.cx) + i % s.cx
  {
    CxPositive(s);
    var tail := cells[s.Llf()..];
    assert cells == s.LowCells() + tail;
    CellsDistinct(s, tail, 2 * s.Side() - 1, 0);
    var p := Positions(s, cells);
    forall v: nat | v < s.Size() ensures v in p {
      PositionCovered(s, cells, v);
    }
    hide IsNaturalOrder, Positions, Shape.Size, Shape.IsZigZag;
    DistinctBelow(p, s.Size());
    forall i: nat | i < s.Llf() ensures p[i] == i / s.cx * (8 * s.cx) + i % s.cx {
      LowPosition(s, cells, i);
    }
  }

  lemma LowPosition(s: Shape, cells: seq<Cell>, i: nat)
    requires s.Valid() && s.cx > 0 && IsNaturalOrder(s, cells) && i < s.Llf()
    ensures Positions(s, cells)[i] == i / s.cx * (8 * s.cx) + i % s.cx
  {
    assert cells[i] == s.LowCells()[i] == s.LowCell(i);
  }

  lemma PositionCovered(s: Shape, cells: seq<Cell>, v: nat)
    requires s.Valid() && IsNaturalOrder(s, cells) && v < s.Size()
    ensures v in Positions(s, cells)
  {
    var c := CellAt(s, v);
    AllCovered(s, cells, c);
    var i :| 0 <= i < |cells| && cells[i] == c;
    assert Positions(s, cells)[i] == v;
  }

  lemma AllCovered(s: Shape, cells: seq<Cell>, c: Cell)
    requires s.Valid() && IsNaturalOrder(s, cells) && s.Has(c)
    ensures c in cells
  {
    CxPositive(s);
    if s.IsLow(c) {
      LowIndexParts(s, c);
      assert cells[s.LowIndex(c)] == cells[..s.Llf()][s.LowIndex(c)] == c;
    } else {
      AlongBounds(s, c);
      assert c in cells[s.Llf()..];
    }
  }

  /** There is only one such order. */
  lemma NaturalIsUnique(s: Shape, a: seq<Cell>, b: seq<Cell>)
    requires s.Valid() && IsNaturalOrder(s, a) && IsNaturalOrder(s, b)
    ensures a == b
  {
    SortedUnique(s, a[s.Llf()..], b[s.Llf()..], 2 * s.Side() - 1, 0);
    assert a == a[..s.Llf()] + a[s.Llf()..] && b == b[..s.Llf()] + b[s.Llf()..];
  }

  /** The last cell comes after all others. */
  lemma LastComesLast(s: Shape, a: seq<Cell>, d: int, j: int, c: Cell)
    requires s.IsZigZag(a, d, j) && c in a
    ensures c == a[|a| - 1] || s.Before(c, a[|a| - 1])
  {
    var i :| 0 <= i < |a| && a[i] == c;
  }

  lemma SameMembers(s: Shape, a: seq<Cell>, b: seq<Cell>, d: int, j: int)
    requires s.IsZigZag(a, d, j) && s.IsZigZag(b, d, j)
    ensures a == [] <==> b == []
    ensures a != [] ==> a[|a| - 1] in b && b[|b| - 1] in a
  {
    if a != [] {
      var c := a[|a| - 1];
      assert s.Has(c) && !s.IsLow(c) && s.Precedes(c, d, j) && c in b;
    }
    if b != [] {
      var c := b[|b| - 1];
      assert s.Has(c) && !s.IsLow(c) && s.Precedes(c, d, j) && c in a;
    }
  }

  lemma {:induction false} SortedUnique(s: Shape, a: seq<Cell>, b: seq<Cell>, d: int, j: int)
    requires s.IsZigZag(a, d, j) && s.IsZigZag(b, d, j)
    ensures a == b
    decreases |a|
  {
    hide Shape.IsZigZag, Shape.Along, Shape.Diagonal;
    SameMembers(s, a, b, d, j);
    if a != [] {
      var last := a[|a| - 1];
      LastComesLast(s, a, d, j, b[|b| - 1]);
      LastComesLast(s, b, d, j, last);
      assert last == b[|b| - 1];
      ZigZagPrefix(s, a, d, j);
      ZigZagPrefix(s, b, d, j);
      SortedUnique(s, a[..|a| - 1], b[..|b| - 1], s.Diagonal(last), s.Along(last));
      assert a == a[..|a| - 1] + [last] && b == b[..|b| - 1] + [last];
    }
  }

  lemma ZigZagPrefix(s: Shape, a: seq<Cell>, d: int, j: int)
    requires s.IsZigZag(a, d, j) && a != []
    ensures var last := a[|a| - 1]; s.IsZigZag(a[..|a| - 1], s.Diagonal(last), s.Along(last))
  {
    var last := a[|a| - 1];
    forall c | s.Has(c) && !s.IsLow(c) && s.Precedes(c, s.Diagonal(last), s.Along(last)) ensures c in a[..|a| - 1] {
      assert s.Precedes(c, d, j);
      var i :| 0 <= i < |a| && a[i] == c;
      assert a[..|a| - 1][i] == c;
    }
  }

  // ----- the tables -----

  /** What one assignment establishes: `out` maps index `k` to position `p`, or back. */
  predicate Linked(isLut: bool, out: seq<nat>, k: nat, p: nat) {
    k < |out| && p < |out| && if isLut then out[p] == k else out[k] == p
  }

  function Link(isLut: bool, out: seq<nat>, k: nat, p: nat): (r: seq<nat>)
    requires k < |out| && p < |out|
    ensures |r| == |out|
  {
    if isLut then out[p := k] else out[k := p]
  }

  /** After the steps before step `j` of diagonal `d`. */
  ghost predicate Placed(s: Shape, isLut: bool, out: seq<nat>, tail: seq<Cell>, d: int, j: int) {
    && |out| == s.Size() && s.IsZigZag(tail, d, j)
    && (forall m: nat | m < |tail| :: Linked(isLut, out, s.Llf() + m, s.Position(tail[m])))
    && (forall c | s.IsLow(c) && s.Precedes(c, d, j) :: Linked(isLut, out, s.LowIndex(c), s.Position(c)))
  }

  lemma LinkedKept(isLut: bool, out: seq<nat>, k: nat, p: nat, k': nat, p': nat)
    requires Linked(isLut, out, k, p) && k' < |out| && p' < |out| && k != k' && p != p'
    ensures Linked(isLut, Link(isLut, out, k', p'), k, p)
  {
  }

  lemma PlacedSkip(s: Shape, isLut: bool, out: seq<nat>, tail: seq<Cell>, d: nat, j: nat)
    requires s.Valid() && Placed(s, isLut, out, tail, d, j) && d < 2 * s.Side() - 1 && j < Steps(s, d)
    requires Low(Visited(s, d, j).1, s.k) != 0
    ensures Placed(s, isLut, out, tail, d, j + 1)
  {
    SkipStep(s, tail, d, j);
    forall c | s.IsLow(c) && s.Precedes(c, d, j + 1) ensures s.Precedes(c, d, j) {
      LowIndexParts(s, c);
      VisitedAlong(s, c, d, j);
      RowOf(s, Visited(s, d, j).0, Visited(s, d, j).1, c);
    }
  }

  lemma PlacedLow(s: Shape, isLut: bool, out: seq<nat>, tail: seq<Cell>, d: nat, j: nat, c: Cell)
    requires s.Valid() && Placed(s, isLut, out, tail, d, j) && d < 2 * s.Side() - 1 && j < Steps(s, d)
    requires Low(Visited(s, d, j).1, s.k) == 0 && c == Cell(Visited(s, d, j).0, Shr(Visited(s, d, j).1, s.k))
    requires s.IsLow(c)
    ensures s.LowIndex(c) < |out| && s.Position(c) < |out|
    ensures Placed(s, isLut, Link(isLut, out, s.LowIndex(c), s.Position(c)), tail, d, j + 1)
  {
    VisitStep(s, tail, d, j);
    TailRoom(s, tail, d, j);
    LowIndexParts(s, c);
    PositionParts(s, c);
    var out' := Link(isLut, out, s.LowIndex(c), s.Position(c));
    hide Linked, Link;
    forall m: nat | m < |tail| ensures Linked(isLut, out', s.Llf() + m, s.Position(tail[m])) {
      PositionsApart(s, c, tail[m]);
      LinkedKept(isLut, out, s.Llf() + m, s.Position(tail[m]), s.LowIndex(c), s.Position(c));
    }
    forall b | s.IsLow(b) && s.Precedes(b, d, j + 1) ensures Linked(isLut, out', s.LowIndex(b), s.Position(b)) {
      LinkNow(isLut, out, s.LowIndex(c), s.Position(c));
      if b != c {
        LowIndexParts(s, b);
        VisitedAlong(s, b, d, j);
        RowOf(s, Visited(s, d, j).0, Visited(s, d, j).1, b);
        PositionsApart(s, b, c);
        LinkedKept(isLut, out, s.LowIndex(b), s.Position(b), s.LowIndex(c), s.Position(c));
      }
    }
  }

  lemma LinkNow(isLut: bool, out: seq<nat>, k: nat, p: nat)
    requires k < |out| && p < |out|
    ensures Linked(isLut, Link(isLut, out, k, p), k, p)
  {
  }

  lemma PlacedTail(s: Shape, isLut: bool, out: seq<nat>, tail: seq<Cell>, d: nat, j: nat, c: Cell)
    requires s.Valid() && Placed(s, isLut, out, tail, d, j) && d < 2 * s.Side() - 1 && j < Steps(s, d)
    requires Low(Visited(s, d, j).1, s.k) == 0 && c == Cell(Visited(s, d, j).0, Shr(Visited(s, d, j).1, s.k))
    requires !s.IsLow(c)
    ensures s.Llf() + |tail| < |out| && s.Position(c) < |out|
    ensures Placed(s, isLut, Link(isLut, out, s.Llf() + |tail|, s.Position(c)), tail + [c], d, j + 1)
  {
    VisitStep(s, tail, d, j);
    TailRoom(s, tail + [c], d, j + 1);
    PositionParts(s, c);
    var k, p := s.Llf() + |tail|, s.Position(c);
    var out' := Link(isLut, out, k, p);
    LinkNow(isLut, out, k, p);
    hide Linked, Link;
    forall m: nat | m < |tail + [c]| ensures Linked(isLut, out', s.Llf() + m, s.Position((tail + [c])[m])) {
      if m < |tail| {
        PositionsApart(s, c, tail[m]);
        LinkedKept(isLut, out, s.Llf() + m, s.Position(tail[m]), k, p);
      }
    }
    forall b | s.IsLow(b) && s.Precedes(b, d, j + 1) ensures Linked(isLut, out', s.LowIndex(b), s.Position(b)) {
      LowIndexParts(s, b);
      VisitedAlong(s, b, d, j);
      RowOf(s, Visited(s, d, j).0, Visited(s, d, j).1, b);
      PositionsApart(s, b, c);
      LinkedKept(isLut, out, s.LowIndex(b), s.Position(b), k, p);
    }
  }

  // ----- the two halves of the walk -----

  lemma VisitedNear(s: Shape, d: nat, j: nat)
    requires d < s.Side() && j <= d
    ensures j < Steps(s, d) && Visited(s, d, j) == if d % 2 == 1 then (d - j, j) else (j, d - j)
  {
  }

  lemma VisitedFar(s: Shape, i: nat, j: nat)
    requires i < s.Side() - 1 && j <= i
    ensures var d := 2 * s.Side() - 2 - i;
            var x, y := s.Side() - 1 - (i - j), s.Side() - 1 - j;
            s.Side() <= d < 2 * s.Side() - 1 && j < Steps(s, d) &&
            Visited(s, d, j) == if i % 2 == 1 then (y, x) else (x, y)
  {
    var d: nat := 2 * s.Side() - 2 - i;
    assert d % 2 == i % 2;
  }

  /** The far half has no low-frequency cells. */
  lemma FarIsNotLow(s: Shape, c: Cell)
    requires s.Valid() && s.Diagonal(c) >= s.Side()
    ensures !s.IsLow(c)
  {
    ShlLess(c.y, s.cy, s.k);
  }

  method Store(isLut: bool, out: array<nat>, val: nat, pos: nat)
    requires val < out.Length && pos < out.Length
    modifies out
    ensures out[..] == Link(isLut, old(out[..]), val, pos)
  {
    if isLut {
      out[pos] := val;
    } else {
      out[val] := pos;
    }
  }

  /** The cell that step `j` of diagonal `d` reaches. */
  ghost predicate IsReached(s: Shape, d: nat, j: nat, c: Cell) {
    && s.Valid() && d < 2 * s.Side() - 1 && j < Steps(s, d)
    && Low(Visited(s, d, j).1, s.k) == 0 && c == Cell(Visited(s, d, j).0, Shr(Visited(s, d, j).1, s.k))
  }

  /** A low-frequency cell keeps its index. */
  method PlaceLow(isLut: bool, s: Shape, out: array<nat>, c: Cell, ghost d: nat, ghost j: nat, ghost tail: seq<Cell>)
    requires IsReached(s, d, j, c) && Placed(s, isLut, out[..], tail, d, j) && s.IsLow(c)
    modifies out
    ensures Placed(s, isLut, out[..], tail, d, j + 1)
  {
    PlacedLow(s, isLut, out[..], tail, d, j, c);
    hide Placed, Link, IsReached;
    Store(isLut, out, c.y * s.cx + c.x, c.y * (8 * s.cx) + c.x);
  }

  /** Any other cell gets the next index. */
  method PlaceNext(isLut: bool, s: Shape, out: array<nat>, cur: nat, c: Cell, ghost d: nat, ghost j: nat,
                   ghost tail: seq<Cell>)
    requires IsReached(s, d, j, c) && Placed(s, isLut, out[..], tail, d, j) && !s.IsLow(c) && cur == s.Llf() + |tail|
    modifies out
    ensures Placed(s, isLut, out[..], tail + [c], d, j + 1)
  {
    PlacedTail(s, isLut, out[..], tail, d, j, c);
    hide Placed, Link, IsReached;
    Store(isLut, out, cur, c.y * (8 * s.cx) + c.x);
  }

  /** One step of the near half. */
  method NearStep(isLut: bool, s: Shape, out: array<nat>, cur: nat, i: nat, j: nat, ghost tail: seq<Cell>)
    returns (cur': nat, ghost tail': seq<Cell>)
    requires s.Valid() && i < s.Side() && j <= i
    requires Placed(s, isLut, out[..], tail, i, j) && cur == s.Llf() + |tail|
    modifies out
    ensures Placed(s, isLut, out[..], tail', i, j + 1) && cur' == s.Llf() + |tail'|
  {
    var x, y := j, i - j;
    if i % 2 == 1 {
      x, y := y, x;
    }
    VisitedNear(s, i, j);
    assert (x, y) == Visited(s, i, j) && i < 2 * s.Side() - 1;
    hide Placed, Visited, Shape.Llf, Shape.Side, Shape.Valid, Steps, Shr, Low;
    cur', tail' := cur, tail;
    if Low(y, s.k) != 0 {
      PlacedSkip(s, isLut, out[..], tail, i, j);
      return;
    }
    y := Shr(y, s.k);
    assert IsReached(s, i, j, Cell(x, y));
    hide IsReached;
    if x < s.cx && y < s.cy {
      PlaceLow(isLut, s, out, Cell(x, y), i, j, tail);
    } else {
      PlaceNext(isLut, s, out, cur, Cell(x, y), i, j, tail);
      cur', tail' := cur + 1, tail + [Cell(x, y)];
    }
  }

  /** One step of the far half. */
  method FarStep(isLut: bool, s: Shape, out: array<nat>, cur: nat, i: nat, j: nat, ghost tail: seq<Cell>)
    returns (cur': nat, ghost tail': seq<Cell>)
    requires s.Valid() && i < s.Side() - 1 && j <= i
    requires Placed(s, isLut, out[..], tail, 2 * s.Side() - 2 - i, j) && cur == s.Llf() + |tail|
    modifies out
    ensures Placed(s, isLut, out[..], tail', 2 * s.Side() - 2 - i, j + 1) && cur' == s.Llf() + |tail'|
  {
    var x, y := 8 * s.cx - 1 - (i - j), 8 * s.cx - 1 - j;
    if i % 2 == 1 {
      x, y := y, x;
    }
    ghost var d: nat := 2 * s.Side() - 2 - i;
    VisitedFar(s, i, j);
    assert (x, y) == Visited(s, d, j) && s.Side() <= d < 2 * s.Side() - 1;
    hide Placed, Visited, Shape.Llf, Shape.Side, Shape.Valid, Shape.IsLow, Steps, Shr, Low;
    cur', tail' := cur, tail;
    if Low(y, s.k) != 0 {
      PlacedSkip(s, isLut, out[..], tail, d, j);
      return;
    }
    y := Shr(y, s.k);
    assert IsReached(s, d, j, Cell(x, y));
    hide IsReached;
    FarCell(s, isLut, out[..], tail, d, j, Cell(x, y));
    PlaceNext(isLut, s, out, cur, Cell(x, y), d, j, tail);
    cur', tail' := cur + 1, tail + [Cell(x, y)];
  }

  lemma FarCell(s: Shape, isLut: bool, out: seq<nat>, tail: seq<Cell>, d: nat, j: nat, c: Cell)
    requires IsReached(s, d, j, c) && Placed(s, isLut, out, tail, d, j) && s.Side() <= d
    ensures !s.IsLow(c)
  {
    VisitStep(s, tail, d, j);
    FarIsNotLow(s, c);
  }

  lemma PlacedStart(s: Shape, isLut: bool, out: seq<nat>)
    requires s.Valid() && |out| == s.Size()
    ensures Placed(s, isLut, out, [], 0, 0)
  {
    CxPositive(s);
    forall c | s.Has(c) ensures !s.Precedes(c, 0, 0) {
      AlongBounds(s, c);
    }
  }

  lemma PlacedNext(s: Shape, isLut: bool, out: seq<nat>, tail: seq<Cell>, d: nat)
    requires s.Valid() && Placed(s, isLut, out, tail, d, Steps(s, d))
    ensures Placed(s, isLut, out, tail, d + 1, 0)
  {
    NextDiagonal(s, tail, d);
    forall c | s.IsLow(c) && s.Precedes(c, d + 1, 0) ensures s.Precedes(c, d, Steps(s, d)) {
      LowIndexParts(s, c);
      AlongBounds(s, c);
    }
  }

  method NearHalf(isLut: bool, s: Shape, out: array<nat>) returns (cur: nat, ghost tail: seq<Cell>)
    requires s.Valid() && out.Length == s.Size()
    modifies out
    ensures Placed(s, isLut, out[..], tail, s.Side(), 0) && cur == s.Llf() + |tail|
  {
    cur, tail := s.cx * s.cy, [];
    PlacedStart(s, isLut, out[..]);
    hide Placed;
    for i := 0 to s.cx * 8
      invariant Placed(s, isLut, out[..], tail, i, 0) && cur == s.Llf() + |tail|
    {
      for j := 0 to i + 1
        invariant Placed(s, isLut, out[..], tail, i, j) && cur == s.Llf() + |tail|
      {
        cur, tail := NearStep(isLut, s, out, cur, i, j, tail);
      }
      PlacedNext(s, isLut, out[..], tail, i);
    }
  }

  method FarHalf(isLut: bool, s: Shape, out: array<nat>, cur0: nat, ghost tail0: seq<Cell>)
    returns (ghost tail: seq<Cell>)
    requires s.Valid() && Placed(s, isLut, out[..], tail0, s.Side(), 0) && cur0 == s.Llf() + |tail0|
    modifies out
    ensures Placed(s, isLut, out[..], tail, 2 * s.Side() - 1, 0)
  {
    CxPositive(s);
    var cur := cur0;
    tail := tail0;
    hide Placed;
    for ip := s.cx * 8 - 1 downto 0
      invariant Placed(s, isLut, out[..], tail, 2 * s.Side() - 1 - ip, 0) && cur == s.Llf() + |tail|
    {
      for j := 0 to ip + 1
        invariant Placed(s, isLut, out[..], tail, 2 * s.Side() - 2 - ip, j) && cur == s.Llf() + |tail|
      {
        cur, tail := FarStep(isLut, s, out, cur, ip, j, tail);
      }
      PlacedNext(s, isLut, out[..], tail, 2 * s.Side() - 2 - ip);
    }
  }

  /** The table maps positions of the order back to their indices. */
  ghost predicate IsInverse(lut: seq<nat>, order: seq<nat>) {
    |lut| == |order| && forall k | 0 <= k < |order| :: order[k] < |lut| && lut[order[k]] == k
  }

  /** Inverse on one side is inverse on both. */
  lemma InverseBothWays(lut: seq<nat>, order: seq<nat>)
    requires IsPermutation(order) && IsInverse(lut, order)
    ensures IsInverse(order, lut)
  {
    forall p | 0 <= p < |lut| ensures lut[p] < |order| && order[lut[p]] == p {
      assert p in order;
      var k :| 0 <= k < |order| && order[k] == p;
    }
  }

  lemma RatioOf(cy: nat, k: nat)
    requires cy > 0
    ensures Shl(cy, k) / cy == Pow2(k) && CeilLog2(Pow2(k)) == k
  {
    ShlIsTimes(cy, k);
    DivModUnique(Shl(cy, k), cy, Pow2(k), 0);
    CeilLog2AtMost(Pow2(k), k);
    if CeilLog2(Pow2(k)) < k {
      Pow2Monotone(CeilLog2(Pow2(k)), k);
    }
  }

  lemma {:induction false} ShlIsTimes(v: nat, n: nat)
    ensures Shl(v, n) == v * Pow2(n)
    decreases n
  {
    if n > 0 {
      ShlIsTimes(v, n - 1);
      assert v * (2 * Pow2(n - 1)) == 2 * (v * Pow2(n - 1));
    }
  }

  lemma PlacedIsNatural(s: Shape, isLut: bool, out: seq<nat>, tail: seq<Cell>)
    requires s.Valid() && Placed(s, isLut, out, tail, 2 * s.Side() - 1, 0)
    ensures s.cx > 0 && IsNaturalOrder(s, s.LowCells() + tail)
    ensures var order := Positions(s, s.LowCells() + tail);
            if isLut then IsInverse(out, order) else out == order
  {
    CxPositive(s);
    var cells := s.LowCells() + tail;
    assert cells[..s.Llf()] == s.LowCells() && cells[s.Llf()..] == tail;
    NaturalIsPermutation(s, cells);
    forall i: nat | i < |cells| ensures Linked(isLut, out, i, s.Position(cells[i])) {
      if i < s.Llf() {
        LowCellParts(s, i);
        LowIndexParts(s, s.LowCell(i));
        AlongBounds(s, s.LowCell(i));
      } else {
        assert cells[i] == tail[i - s.Llf()];
      }
    }
  }

  /** `CoeffOrderAndLut`: the natural order, or its inverse, for a block of `coveredX` by `coveredY`
      8x8 blocks. */
  method CoeffOrderAndLut(isLut: bool, coveredX: nat, coveredY: nat, out: array<nat>, ghost k: nat)
    returns (ghost cells: seq<Cell>)
    requires coveredX > 0 && coveredY > 0
    requires Max(coveredX, coveredY) == Shl(Min(coveredX, coveredY), k)
    requires out.Length == 64 * coveredX * coveredY
    modifies out
    ensures var s := Shape(Max(coveredX, coveredY), Min(coveredX, coveredY), k);
            s.Valid() && IsNaturalOrder(s, cells) && |cells| == s.Size() == out.Length &&
            IsPermutation(Positions(s, cells)) &&
            if isLut then IsInverse(out[..], Positions(s, cells)) && IsInverse(Positions(s, cells), out[..])
            else out[..] == Positions(s, cells)
  {
    var cx, cy := Max(coveredX, coveredY), Min(coveredX, coveredY);
    var xs := cx / cy;
    var xss := CeilLog2(xs);
    RatioOf(cy, k);
    var s := Shape(cx, cy, xss);
    SizeOf(s, coveredX, coveredY);
    ghost var tail;
    var cur;
    cur, tail := NearHalf(isLut, s, out);
    tail := FarHalf(isLut, s, out, cur, tail);
    PlacedIsNatural(s, isLut, out[..], tail);
    cells := s.LowCells() + tail;
    hide IsPermutation, Placed, Shape.IsZigZag;
    NaturalIsPermutation(s, cells);
    if isLut {
      InverseBothWays(out[..], Positions(s, cells));
    }
  }

  lemma SizeOf(s: Shape, x: nat, y: nat)
    requires s.cx == Max(x, y) && s.cy == Min(x, y)
    ensures s.Size() == 64 * x * y
  {
    assert 8 * s.cx * (8 * s.cy) == 64 * (s.cx * s.cy);
    assert 64 * x * y == 64 * (x * y);
  }
}
