/** The AC strategy image (lib/jxl/ac_strategy.h:107-247, lib/jxl/ac_strategy.cc:97-106): an array of
cells in which every transform marks the 8x8 blocks that it covers.
 */
module AcStrategy {
  import opened Bits
  import opened CoeffOrder
  import opened Lehmer
  import opened Sequences

  const NUM_VALID_STRATEGIES: nat := 27
  const INVALID: nat := 0xFF

  const COVERED_X: seq<nat> := [1, 1, 1, 1, 2, 4, 1, 2, 1, 4, 2, 4, 1, 1, 1, 1, 1, 1, 8, 4, 8, 16, 8, 16, 32, 16, 32]
  const COVERED_Y: seq<nat> := [1, 1, 1, 1, 2, 4, 2, 1, 4, 1, 4, 2, 1, 1, 1, 1, 1, 1, 8, 8, 4, 16, 16, 8, 32, 32, 16]
  const LOG2_COVERED: seq<nat> := [0, 0, 0, 0, 2, 4, 1, 1, 2, 2, 3, 3, 0, 0, 0, 0, 0, 0, 6, 5, 5, 8, 7, 7, 10, 9, 9]

  /** The strategies whose bit `IsMultiblock` tests. */
  const MULTIBLOCK: set<nat> := {4, 5, 6, 7, 8, 9, 10, 11, 18, 19, 20, 21, 22, 23, 24, 25, 26}

  type Strategy = t: nat | t < NUM_VALID_STRATEGIES

  function CoveredX(t: Strategy): nat {
    COVERED_X[t]
  }

  function CoveredY(t: Strategy): nat {
    COVERED_Y[t]
  }

  /** The rows and columns of pixels that the strategies are named after, in their order: DCT, IDENTITY, DCT2X2,
      DCT4X4, DCT16X16, DCT32X32, DCT16X8, DCT8X16, DCT32X8, DCT8X32, DCT32X16, DCT16X32, DCT4X8, DCT8X4,
      AFV0 to AFV3, DCT64X64, DCT64X32, DCT32X64, and so on up to 256 pixels. */
  const SIDES: seq<(nat, nat)> := [
    (8, 8), (8, 8), (2, 2), (4, 4), (16, 16), (32, 32), (16, 8), (8, 16), (32, 8), (8, 32), (32, 16), (16, 32),
    (4, 8), (8, 4), (4, 4), (4, 4), (4, 4), (4, 4), (64, 64), (64, 32), (32, 64), (128, 128), (128, 64), (64, 128),
    (256, 256), (256, 128), (128, 256)]

  /** A strategy covers as many blocks of eight by eight pixels as its sides need. */
  lemma CoversItsSides(t: Strategy)
    ensures |SIDES| == NUM_VALID_STRATEGIES
    ensures CoveredY(t) == (SIDES[t].0 + 7) / 8 && CoveredX(t) == (SIDES[t].1 + 7) / 8
  {
  }

  /** The exponent between the longer and the shorter side. */
  function RatioLog2(t: Strategy): nat {
    if Max(CoveredX(t), CoveredY(t)) == Min(CoveredX(t), CoveredY(t)) then 0
    else if Max(CoveredX(t), CoveredY(t)) == 2 * Min(CoveredX(t), CoveredY(t)) then 1 else 2
  }

  /** Every shape fits `CoeffOrderAndLut`. */
  lemma ShapesFit(t: Strategy)
    ensures CoveredX(t) > 0 && CoveredY(t) > 0
    ensures Max(CoveredX(t), CoveredY(t)) == Shl(Min(CoveredX(t), CoveredY(t)), RatioLog2(t))
  {
    var m := Min(CoveredX(t), CoveredY(t));
    var l := Max(CoveredX(t), CoveredY(t));
    assert 0 < m && (l == m || l == 2 * m || l == 4 * m);
    assert Shl(m, 0) == m && Shl(m, 1) == 2 * m && Shl(m, 2) == 4 * m;
  }

  function ShapeOf(t: Strategy): (s: Shape)
    ensures s.Valid()
  {
    ShapesFit(t);
    Shape(Max(CoveredX(t), CoveredY(t)), Min(CoveredX(t), CoveredY(t)), RatioLog2(t))
  }

  /** The natural order of every strategy. */
  method ComputeNaturalCoeffOrder(t: Strategy, order: array<nat>) returns (ghost cells: seq<Cell>)
    requires order.Length == 64 * CoveredX(t) * CoveredY(t)
    modifies order
    ensures IsNaturalOrder(ShapeOf(t), cells) && |cells| == ShapeOf(t).Size() == order.Length
    ensures order[..] == Positions(ShapeOf(t), cells) && IsPermutation(order[..])
  {
    ShapesFit(t);
    hide IsNaturalOrder, IsPermutation, Positions, CoveredX, CoveredY, RatioLog2, IsInverse;
    cells := CoeffOrderAndLut(false, CoveredX(t), CoveredY(t), order, RatioLog2(t));
  }

  /** ... and its inverse. */
  method ComputeNaturalCoeffOrderLut(t: Strategy, lut: array<nat>) returns (ghost cells: seq<Cell>)
    requires lut.Length == 64 * CoveredX(t) * CoveredY(t)
    modifies lut
    ensures IsNaturalOrder(ShapeOf(t), cells) && |cells| == ShapeOf(t).Size() == lut.Length
    ensures IsInverse(lut[..], Positions(ShapeOf(t), cells)) && IsInverse(Positions(ShapeOf(t), cells), lut[..])
  {
    ShapesFit(t);
    hide IsNaturalOrder, IsPermutation, Positions, CoveredX, CoveredY, RatioLog2, IsInverse;
    cells := CoeffOrderAndLut(true, CoveredX(t), CoveredY(t), lut, RatioLog2(t));
  }

  /** The table of logarithms agrees with the two others. */
  lemma Log2Covered(t: Strategy)
    ensures Pow2(LOG2_COVERED[t]) == CoveredX(t) * CoveredY(t)
  {
    Pow2Small();
  }

  /** A strategy covers several blocks exactly if `IsMultiblock` says so. */
  lemma MultiblockCovers(t: Strategy)
    ensures t in MULTIBLOCK <==> CoveredX(t) * CoveredY(t) > 1
  {
    if CoveredX(t) == 1 && CoveredY(t) == 1 {
      assert t !in MULTIBLOCK;
    } else {
      assert t in MULTIBLOCK;
      ShapesFit(t);
      assert CoveredX(t) > 1 || CoveredY(t) > 1;
    }
  }

  // ----- images -----

  type Rows = seq<seq<nat>>

  ghost predicate IsGrid(rows: Rows, w: nat, h: nat) {
    |rows| == h && forall y | 0 <= y < h :: |rows[y]| == w
  }

  function Layer(rows: Rows, x: nat, y: nat): nat
    requires y < |rows| && x < |rows[y]|
  {
    rows[y][x]
  }

  function SetCell(rows: Rows, x: nat, y: nat, v: nat): Rows
    requires y < |rows| && x < |rows[y]|
  {
    rows[y := Updated(rows[y], x, v)]
  }

  /** The value of a first block of strategy `t`. */
  function FirstMark(t: Strategy): (m: nat)
    ensures m != INVALID
  {
    2 * t + 1
  }

  function One(b: bool): nat {
    if b then 1 else 0
  }

  function CountRow(row: seq<nat>, v: nat): nat {
    if row == [] then 0 else CountRow(row[..|row| - 1], v) + One(row[|row| - 1] == v)
  }

  function CountImage(rows: Rows, v: nat): nat {
    if rows == [] then 0 else CountImage(rows[..|rows| - 1], v) + CountRow(rows[|rows| - 1], v)
  }

  lemma {:induction false} CountSetInRow(row: seq<nat>, x: nat, n: nat, v: nat)
    requires x < |row|
    ensures CountRow(Updated(row, x, n), v) + One(row[x] == v) == CountRow(row, v) + One(n == v)
  {
    var last := |row| - 1;
    if x < last {
      CountSetInRow(row[..last], x, n, v);
      assert Updated(row, x, n)[..last] == Updated(row[..last], x, n);
    } else {
      assert Updated(row, x, n)[..last] == row[..last];
    }
  }

  lemma {:induction false} CountSetCell(rows: Rows, x: nat, y: nat, n: nat, v: nat)
    requires y < |rows| && x < |rows[y]|
    ensures CountImage(SetCell(rows, x, y, n), v) + One(Layer(rows, x, y) == v) == CountImage(rows, v) + One(n == v)
  {
    var last := |rows| - 1;
    CountSetInRow(rows[y], x, n, v);
    if y < last {
      CountSetCell(rows[..last], x, y, n, v);
      assert SetCell(rows, x, y, n)[..last] == SetCell(rows[..last], x, y, n);
    } else {
      assert SetCell(rows, x, y, n)[..last] == rows[..last];
    }
  }

  // ----- placements -----

  datatype Placement = Placement(x: nat, y: nat, t: Strategy) {
    predicate Fits(w: nat, h: nat) {
      x + CoveredX(t) <= w && y + CoveredY(t) <= h
    }

    predicate Covers(cx: nat, cy: nat) {
      x <= cx < x + CoveredX(t) && y <= cy < y + CoveredY(t)
    }

    predicate Starts(cx: nat, cy: nat) {
      cx == x && cy == y
    }

    /** The strategy, and the flag of the first block in the lowest bit. */
    function Mark(cx: nat, cy: nat): (m: nat)
      ensures m != INVALID
    {
      2 * t + One(cx == x && cy == y)
    }

    /** The cell comes before row `iy`, column `ix` of the placement, row by row. */
    predicate Reached(cx: nat, cy: nat, ix: nat, iy: nat) {
      Covers(cx, cy) && (cy < y + iy || (cy == y + iy && cx < x + ix))
    }
  }

  /** `rows` after the cells before (ix, iy) of placement `p` were marked in `before`. */
  ghost predicate Marked(before: Rows, rows: Rows, w: nat, h: nat, p: Placement, ix: nat, iy: nat) {
    && IsGrid(before, w, h) && IsGrid(rows, w, h) && p.Fits(w, h)
    && (forall x: nat, y: nat | x < w && y < h ::
          Layer(rows, x, y) == if p.Reached(x, y, ix, iy) then p.Mark(x, y) else Layer(before, x, y))
  }

  /** All cells before (ix, iy) were free. */
  ghost predicate WasFree(before: Rows, w: nat, h: nat, p: Placement, ix: nat, iy: nat) {
    IsGrid(before, w, h) &&
    forall x: nat, y: nat | x < w && y < h && p.Reached(x, y, ix, iy) :: Layer(before, x, y) == INVALID
  }

  /** On free cells, one first-block mark of the placement's own strategy is added, and nothing else. */
  ghost predicate CountsAdded(before: Rows, rows: Rows, p: Placement, started: bool) {
    forall t: Strategy :: CountImage(rows, FirstMark(t)) == CountImage(before, FirstMark(t)) + if started &&
      t == p.t then 1 else 0
  }

  lemma MarkNext(before: Rows, rows: Rows, w: nat, h: nat, p: Placement, ix: nat, iy: nat)
    requires Marked(before, rows, w, h, p, ix, iy) && ix < CoveredX(p.t) && iy < CoveredY(p.t)
    ensures var x, y := p.x + ix, p.y + iy;
            y < |rows| && x < |rows[y]| && Layer(rows, x, y) == Layer(before, x, y) &&
            Marked(before, SetCell(rows, x, y, p.Mark(x, y)), w, h, p, ix + 1, iy)
  {
    var x, y := p.x + ix, p.y + iy;
    assert !p.Reached(x, y, ix, iy);
    var rows' := SetCell(rows, x, y, p.Mark(x, y));
    forall cx: nat, cy: nat | cx < w && cy < h
      ensures Layer(rows', cx, cy) == if p.Reached(cx, cy, ix + 1, iy) then p.Mark(cx, cy) else Layer(before, cx, cy)
    {
      assert (cx, cy) != (x, y) ==> Layer(rows', cx, cy) == Layer(rows, cx, cy);
    }
  }

  lemma FreeNext(before: Rows, rows: Rows, w: nat, h: nat, p: Placement, ix: nat, iy: nat)
    requires Marked(before, rows, w, h, p, ix, iy) && ix < CoveredX(p.t) && iy < CoveredY(p.t)
    requires WasFree(before, w, h, p, ix, iy) && CountsAdded(before, rows, p, ix + iy > 0)
    requires Layer(before, p.x + ix, p.y + iy) == INVALID
    ensures WasFree(before, w, h, p, ix + 1, iy)
    ensures CountsAdded(before, SetCell(rows, p.x + ix, p.y + iy, p.Mark(p.x + ix, p.y + iy)), p, true)
  {
    var x, y := p.x + ix, p.y + iy;
    MarkNext(before, rows, w, h, p, ix, iy);
    forall t: Strategy ensures CountImage(SetCell(rows, x, y, p.Mark(x, y)), FirstMark(t))
      == CountImage(before, FirstMark(t)) + if t == p.t then 1 else 0
    {
      CountSetCell(rows, x, y, p.Mark(x, y), FirstMark(t));
    }
    forall cx: nat, cy: nat | cx < w && cy < h && p.Reached(cx, cy, ix + 1, iy)
      ensures Layer(before, cx, cy) == INVALID
    {
      assert p.Reached(cx, cy, ix, iy) || (cx, cy) == (x, y);
    }
  }

  /** What both loops of `SetNoBoundsCheck` keep. */
  ghost predicate Marking(before: Rows, rows: Rows, w: nat, h: nat, p: Placement, check: bool, ix: nat, iy: nat) {
    && Marked(before, rows, w, h, p, ix, iy)
    && (check ==> WasFree(before, w, h, p, ix, iy) && CountsAdded(before, rows, p, ix + iy > 0))
  }

  lemma MarkingNext(before: Rows, rows: Rows, w: nat, h: nat, p: Placement, check: bool, ix: nat, iy: nat, mark: nat)
    requires Marking(before, rows, w, h, p, check, ix, iy) && ix < CoveredX(p.t) && iy < CoveredY(p.t)
    requires mark == 2 * p.t + if iy == 0 && ix == 0 then 1 else 0
    ensures var x, y := p.x + ix, p.y + iy;
            y < h && x < w && IsGrid(rows, w, h) && IsGrid(before, w, h) && Layer(rows, x, y) == Layer(before, x, y) &&
            ((check && Layer(rows, x, y) != INVALID) ||
              Marking(before, SetCell(rows, x, y, mark), w, h, p, check, ix + 1, iy))
  {
    hide Marked, WasFree, CountsAdded, SetCell;
    MarkNext(before, rows, w, h, p, ix, iy);
    MarkedImages(before, rows, w, h, p, ix, iy);
    assert mark == p.Mark(p.x + ix, p.y + iy);
    if check && Layer(rows, p.x + ix, p.y + iy) == INVALID {
      FreeNext(before, rows, w, h, p, ix, iy);
    }
  }

  lemma MarkedImages(before: Rows, rows: Rows, w: nat, h: nat, p: Placement, ix: nat, iy: nat)
    requires Marked(before, rows, w, h, p, ix, iy)
    ensures IsGrid(rows, w, h) && IsGrid(before, w, h) && p.Fits(w, h)
  {
  }

  lemma MarkingRow(before: Rows, rows: Rows, w: nat, h: nat, p: Placement, check: bool, iy: nat)
    requires Marking(before, rows, w, h, p, check, CoveredX(p.t), iy)
    ensures Marking(before, rows, w, h, p, check, 0, iy + 1)
  {
    ShapesFit(p.t);
    NextRow(before, rows, w, h, p, iy);
  }

  // ----- tilings -----

  function Number(ps: seq<Placement>, t: Strategy): nat {
    if ps == [] then 0 else Number(ps[..|ps| - 1], t) + One(ps[|ps| - 1].t == t)
  }

  ghost predicate Disjoint(a: Placement, b: Placement) {
    forall x, y :: !(a.Covers(x, y) && b.Covers(x, y))
  }

  /** The image is an exact tiling by the placements: they are disjoint, the cells that are not INVALID
      are exactly those covered, each carries its own placement's strategy, first-block flags sit
      exactly on top-left cells, and every strategy is flagged once per placement. */
  ghost predicate Tiled(rows: Rows, w: nat, h: nat, ps: seq<Placement>) {
    && IsGrid(rows, w, h) && (forall k | 0 <= k < |ps| :: ps[k].Fits(w, h))
    && (forall j, k | 0 <= j < k < |ps| :: Disjoint(ps[j], ps[k]))
    && (forall k, x: nat, y: nat | 0 <= k < |ps| && x < w && y < h && ps[k].Covers(x, y) ::
          Layer(rows, x, y) == ps[k].Mark(x, y))
    && (forall x: nat, y: nat | x < w && y < h && Layer(rows, x, y) != INVALID ::
          exists k :: 0 <= k < |ps| && ps[k].Covers(x, y))
    && (forall t: Strategy :: CountImage(rows, FirstMark(t)) == Number(ps, t))
  }

  lemma TiledNext(before: Rows, rows: Rows, w: nat, h: nat, ps: seq<Placement>, p: Placement)
    requires Tiled(before, w, h, ps) && Marked(before, rows, w, h, p, 0, CoveredY(p.t))
    requires WasFree(before, w, h, p, 0, CoveredY(p.t)) && CountsAdded(before, rows, p, true)
    ensures Tiled(rows, w, h, ps + [p])
  {
    var all := ps + [p];
    forall k | 0 <= k < |ps| ensures Disjoint(ps[k], p) {
      forall x: nat, y: nat | p.Covers(x, y) ensures !ps[k].Covers(x, y) {
        assert p.Reached(x, y, 0, CoveredY(p.t)) && Layer(before, x, y) == INVALID;
      }
    }
    forall x: nat, y: nat | x < w && y < h && Layer(rows, x, y) != INVALID
      ensures exists k :: 0 <= k < |all| && all[k].Covers(x, y)
    {
      if p.Covers(x, y) {
        assert all[|ps|].Covers(x, y);
      } else {
        var k :| 0 <= k < |ps| && ps[k].Covers(x, y);
        assert all[k].Covers(x, y);
      }
    }
    forall t: Strategy ensures Number(all, t) == Number(ps, t) + One(t == p.t) {
      assert all[..|ps|] == ps;
    }
    forall k, x: nat, y: nat | 0 <= k < |all| && x < w && y < h && all[k].Covers(x, y)
      ensures Layer(rows, x, y) == all[k].Mark(x, y)
    {
      if k < |ps| {
        assert Disjoint(ps[k], p);
      }
    }
  }

  /** In a tiling, the cells that are not INVALID are the covered ones. */
  lemma CoveredCells(rows: Rows, w: nat, h: nat, ps: seq<Placement>, x: nat, y: nat)
    requires Tiled(rows, w, h, ps) && x < w && y < h
    ensures Layer(rows, x, y) != INVALID <==> exists k :: 0 <= k < |ps| && ps[k].Covers(x, y)
  {
    hide CountImage, Number, Placement.Covers, Disjoint;
  }

  /** The first-block flag is set exactly where a placement starts. */
  lemma FirstBlocks(rows: Rows, w: nat, h: nat, ps: seq<Placement>, x: nat, y: nat)
    requires Tiled(rows, w, h, ps) && x < w && y < h
    ensures Layer(rows, x, y) != INVALID && Layer(rows, x, y) % 2 == 1 <==>
            exists k :: 0 <= k < |ps| && ps[k].Starts(x, y)
  {
    hide CountImage, Number, Disjoint, Placement.Mark, Placement.Covers;
    if Layer(rows, x, y) != INVALID {
      var k :| 0 <= k < |ps| && ps[k].Covers(x, y);
      MarkParity(ps[k], x, y);
    }
    forall j | 0 <= j < |ps| && ps[j].Starts(x, y) ensures Layer(rows, x, y) != INVALID && Layer(rows, x, y) % 2 == 1 {
      StartsAreCovered(ps[j]);
      MarkParity(ps[j], x, y);
    }
  }

  lemma MarkParity(p: Placement, x: nat, y: nat)
    ensures p.Mark(x, y) != INVALID && (p.Mark(x, y) % 2 == 1 <==> p.Starts(x, y))
  {
  }

  lemma StartsAreCovered(p: Placement)
    ensures p.Covers(p.x, p.y)
  {
    ShapesFit(p.t);
  }

  // ----- the image object -----

  lemma NothingMarked(rows: Rows, w: nat, h: nat, p: Placement)
    requires IsGrid(rows, w, h) && p.Fits(w, h)
    ensures Marked(rows, rows, w, h, p, 0, 0) && WasFree(rows, w, h, p, 0, 0) && CountsAdded(rows, rows, p, false)
  {
    assert forall x: nat, y: nat :: !p.Reached(x, y, 0, 0);
  }

  lemma NextRow(before: Rows, rows: Rows, w: nat, h: nat, p: Placement, iy: nat)
    requires Marked(before, rows, w, h, p, CoveredX(p.t), iy)
    ensures Marked(before, rows, w, h, p, 0, iy + 1)
    ensures WasFree(before, w, h, p, CoveredX(p.t), iy) ==> WasFree(before, w, h, p, 0, iy + 1)
  {
    forall x: nat, y: nat | x < w && y < h
      ensures Layer(rows, x, y) == if p.Reached(x, y, 0, iy + 1) then p.Mark(x, y) else Layer(before, x, y)
    {
      assert p.Reached(x, y, CoveredX(p.t), iy) == p.Reached(x, y, 0, iy + 1);
    }
    if WasFree(before, w, h, p, CoveredX(p.t), iy) {
      forall x: nat, y: nat | x < w && y < h && p.Reached(x, y, 0, iy + 1) ensures Layer(before, x, y) == INVALID {
        assert p.Reached(x, y, CoveredX(p.t), iy);
      }
    }
  }

  lemma {:induction false} EmptyCounts(rows: Rows, w: nat, h: nat, v: nat)
    requires IsGrid(rows, w, h) && v != INVALID
    requires forall x: nat, y: nat | x < w && y < h :: Layer(rows, x, y) == INVALID
    ensures CountImage(rows, v) == 0
    decreases h
  {
    if h > 0 {
      var rest := rows[..h - 1];
      forall x: nat, y: nat | x < w && y < h - 1 ensures Layer(rest, x, y) == INVALID {
        assert Layer(rows, x, y) == INVALID;
      }
      EmptyCounts(rest, w, h - 1, v);
      var last := rows[h - 1];
      forall x: nat | x < w ensures last[x] != v {
        assert Layer(rows, x, h - 1) == INVALID;
      }
      EmptyRow(last, v);
    }
  }

  lemma {:induction false} EmptyRow(row: seq<nat>, v: nat)
    requires v !in row
    ensures CountRow(row, v) == 0
  {
    if row != [] {
      EmptyRow(row[..|row| - 1], v);
    }
  }

  lemma EmptyIsTiled(rows: Rows, w: nat, h: nat)
    requires IsGrid(rows, w, h) && forall x: nat, y: nat | x < w && y < h :: Layer(rows, x, y) == INVALID
    ensures Tiled(rows, w, h, [])
  {
    forall t: Strategy ensures CountImage(rows, FirstMark(t)) == 0 {
      EmptyCounts(rows, w, h, FirstMark(t));
    }
  }

  class AcStrategyImage {
    const xsize: nat
    const ysize: nat
    const layers: array2<nat>
    /** The placements that succeeded since the image was cleared. */
    ghost var placements: seq<Placement>

    ghost predicate Valid() {
      layers.Length0 == ysize && layers.Length1 == xsize
    }

    ghost function Row(y: nat): (r: seq<nat>)
      reads layers
      requires Valid() && y < ysize
      ensures |r| == xsize && forall x | 0 <= x < xsize :: r[x] == layers[y, x]
    {
      seq(xsize, x requires 0 <= x < xsize && Valid() reads layers => layers[y, x])
    }

    ghost function Contents(): (r: Rows)
      reads layers
      requires Valid()
      ensures IsGrid(r, xsize, ysize) && forall x, y | 0 <= x < xsize && 0 <= y < ysize :: r[y][x] == layers[y, x]
    {
      seq(ysize, y requires 0 <= y < ysize && Valid() reads layers => Row(y))
    }

    ghost predicate IsTiled()
      reads `placements, layers
      requires Valid()
    {
      Tiled(Contents(), xsize, ysize, placements)
    }

    constructor (xsize: nat, ysize: nat)
      ensures Valid() && this.xsize == xsize && this.ysize == ysize && fresh(layers)
    {
      this.xsize, this.ysize := xsize, ysize;
      layers := new nat[ysize, xsize];
      placements := [];
    }

    /** `FillInvalid`: an empty tiling. */
    method FillInvalid()
      requires Valid()
      modifies this`placements, layers
      ensures Valid() && placements == [] && IsTiled()
    {
      forall y, x | 0 <= y < ysize && 0 <= x < xsize {
        layers[y, x] := INVALID;
      }
      placements := [];
      EmptyIsTiled(Contents(), xsize, ysize);
    }

    method SetLayer(x: nat, y: nat, v: nat)
      requires Valid() && x < xsize && y < ysize
      modifies layers
      ensures Contents() == SetCell(old(Contents()), x, y, v)
    {
      layers[y, x] := v;
      ghost var rows, expected := Contents(), SetCell(old(Contents()), x, y, v);
      forall k | 0 <= k < ysize ensures rows[k] == expected[k] {
        forall m | 0 <= m < xsize ensures rows[k][m] == expected[k][m] {
        }
      }
    }

    /** One cell. */
    method MarkCell(p: Placement, check: bool, ix: nat, iy: nat, ghost before: Rows) returns (ok: bool)
      requires Valid() && ix < CoveredX(p.t) && iy < CoveredY(p.t)
      requires Marking(before, Contents(), xsize, ysize, p, check, ix, iy)
      modifies layers
      ensures IsGrid(before, xsize, ysize) && p.y + iy < ysize && p.x + ix < xsize
      ensures Marking(before, Contents(), xsize, ysize, p, check, if ok then ix + 1 else ix, iy)
      ensures !ok ==> check && Layer(before, p.x + ix, p.y + iy) != INVALID
    {
      var x, y := p.x + ix, p.y + iy;
      var mark := 2 * p.t + if iy == 0 && ix == 0 then 1 else 0;
      hide Marking, SetCell, CoveredX, CoveredY;
      MarkingNext(before, Contents(), xsize, ysize, p, check, ix, iy, mark);
      assert layers[y, x] == Layer(Contents(), x, y);
      if check && layers[y, x] != INVALID {
        return false;
      }
      SetLayer(x, y, mark);
      return true;
    }

    /** The inner loop: one row of the placement. */
    method MarkRow(p: Placement, check: bool, iy: nat, ghost before: Rows) returns (ok: bool, ghost ix: nat)
      requires Valid() && iy < CoveredY(p.t)
      requires Marking(before, Contents(), xsize, ysize, p, check, 0, iy)
      modifies layers
      ensures IsGrid(before, xsize, ysize) && Marking(before, Contents(), xsize, ysize, p, check, ix, iy)
      ensures if ok then ix == CoveredX(p.t)
              else check && ix < CoveredX(p.t) && p.x + ix < xsize && p.y + iy < ysize &&
                   Layer(before, p.x + ix, p.y + iy) != INVALID
    {
      for column := 0 to CoveredX(p.t)
        invariant Marking(before, Contents(), xsize, ysize, p, check, column, iy)
      {
        hide Marking, CoveredX, CoveredY;
        var free := MarkCell(p, check, column, iy, before);
        if !free {
          return false, column;
        }
      }
      return true, CoveredX(p.t);
    }

    /** `SetNoBoundsCheck`. With the check it succeeds exactly if all cells were free, and then extends
        the tiling; on an overlap the cells before it stay marked. Without the check it always marks. */
    method SetNoBoundsCheck(x: nat, y: nat, t: Strategy, check: bool)
      returns (ok: bool, ghost ix: nat, ghost iy: nat)
      requires Valid() && Placement(x, y, t).Fits(xsize, ysize)
      modifies this`placements, layers
      ensures Valid() && Marked(old(Contents()), Contents(), xsize, ysize, Placement(x, y, t), ix, iy)
      ensures ok ==> (ix, iy) == (0, CoveredY(t)) &&
                     (check ==> WasFree(old(Contents()), xsize, ysize, Placement(x, y, t), ix, iy))
      ensures !ok ==> check && ix < CoveredX(t) && iy < CoveredY(t) && Layer(old(Contents()), x + ix, y + iy) != INVALID
      ensures placements == if ok then old(placements) + [Placement(x, y, t)] else old(placements)
      ensures ok && check && old(IsTiled()) ==> IsTiled()
    {
      var p := Placement(x, y, t);
      ghost var before := Contents();
      NothingMarked(before, xsize, ysize, p);
      ShapesFit(t);
      ghost var wasTiled := IsTiled();
      for row := 0 to CoveredY(t)
        invariant Marking(before, Contents(), xsize, ysize, p, check, 0, row) && placements == old(placements)
      {
        hide Marking, Tiled, IsTiled;
        var whole;
        whole, ix := MarkRow(p, check, row, before);
        if !whole {
          return false, ix, row;
        }
        MarkingRow(before, Contents(), xsize, ysize, p, check, row);
      }
      hide Tiled, Marked, WasFree, CountsAdded;
      if check && wasTiled {
        TiledNext(before, Contents(), xsize, ysize, placements, p);
      }
      placements := placements + [p];
      return true, 0, CoveredY(t);
    }

    /** `CountBlocks`: in a tiling, the number of placements of the strategy. */
    method CountBlocks(t: Strategy) returns (ret: nat)
      requires Valid()
      ensures ret == CountImage(Contents(), FirstMark(t))
      ensures IsTiled() ==> ret == Number(placements, t)
    {
      ret := 0;
      ghost var rows := Contents();
      assert rows[..0] == [];
      for y := 0 to ysize
        invariant ret == CountImage(rows[..y], FirstMark(t))
      {
        ghost var start := ret;
        assert rows[y][..0] == [];
        for x := 0 to xsize
          invariant ret == start + CountRow(rows[y][..x], FirstMark(t))
        {
          assert rows[y][..x + 1][..x] == rows[y][..x];
          if layers[y, x] == FirstMark(t) {
            ret := ret + 1;
          }
        }
        assert rows[..y + 1][..y] == rows[..y] && rows[y][..xsize] == rows[y];
      }
      assert rows[..ysize] == rows;
    }
  }

  ghost predicate AreDisjoint(ps: seq<Placement>) {
    forall j, k | 0 <= j < k < |ps| :: Disjoint(ps[j], ps[k])
  }

  lemma TiledAreDisjoint(rows: Rows, w: nat, h: nat, ps: seq<Placement>)
    requires Tiled(rows, w, h, ps)
    ensures AreDisjoint(ps)
  {
    hide Disjoint, CountImage, Number, Placement.Covers;
  }

  /** A placement on a cell that is taken overlaps an earlier one. */
  lemma Overlaps(rows: Rows, w: nat, h: nat, ps: seq<Placement>, p: Placement, ix: nat, iy: nat)
    requires Tiled(rows, w, h, ps) && ix < CoveredX(p.t) && iy < CoveredY(p.t) && p.x + ix < w && p.y + iy < h
    requires IsGrid(rows, w, h) && Layer(rows, p.x + ix, p.y + iy) != INVALID
    ensures exists k :: 0 <= k < |ps| && !Disjoint(ps[k], p)
  {
    var x, y := p.x + ix, p.y + iy;
    CoveredCells(rows, w, h, ps, x, y);
    var k :| 0 <= k < |ps| && ps[k].Covers(x, y);
    assert p.Covers(x, y) && !Disjoint(ps[k], p);
  }

  /** Checked placements on a cleared image go on exactly as long as they are disjoint: the run is complete
      if and only if all of them are, and then tiles the image; it stops at the first one that overlaps an
      earlier one. */
  method PlaceAll(image: AcStrategyImage, ps: seq<Placement>) returns (n: nat)
    requires image.Valid() && forall k | 0 <= k < |ps| :: ps[k].Fits(image.xsize, image.ysize)
    modifies image, image.layers
    ensures image.Valid() && n <= |ps| && image.placements == ps[..n] && AreDisjoint(ps[..n])
    ensures n == |ps| <==> AreDisjoint(ps)
    ensures n == |ps| ==> image.IsTiled() && image.placements == ps
    ensures n < |ps| ==> exists k :: 0 <= k < n && !Disjoint(ps[k], ps[n])
  {
    image.FillInvalid();
    hide AcStrategyImage.IsTiled, Tiled, Disjoint, Marked, Placement.Fits, CoveredX, CoveredY;
    for k := 0 to |ps|
      invariant image.Valid() && image.placements == ps[..k] && image.IsTiled() && AreDisjoint(ps[..k])
    {
      assert ps[..k + 1] == ps[..k] + [ps[k]];
      ghost var overlaps;
      var ok;
      ok, overlaps := PlaceOne(image, ps[..k], ps[k]);
      if !ok {
        assert ps[..k][overlaps] == ps[overlaps];
        return k;
      }
    }
    assert ps[..|ps|] == ps;
    return |ps|;
  }

  /** One more placement; if it fails, `k` is an earlier one that it overlaps. */
  method PlaceOne(image: AcStrategyImage, ghost ps: seq<Placement>, p: Placement) returns (ok: bool, ghost k: nat)
    requires image.Valid() && p.Fits(image.xsize, image.ysize) && image.placements == ps && image.IsTiled()
    modifies image, image.layers
    ensures image.Valid() && image.placements == if ok then ps + [p] else ps
    ensures ok ==> image.IsTiled() && AreDisjoint(ps + [p])
    ensures !ok ==> k < |ps| && !Disjoint(ps[k], p)
  {
    ghost var before := image.Contents();
    assert Tiled(before, image.xsize, image.ysize, ps);
    hide AcStrategyImage.IsTiled, Tiled, Disjoint, Marked;
    ghost var ix, iy;
    ok, ix, iy := image.SetNoBoundsCheck(p.x, p.y, p.t, true);
    if ok {
      TiledNow(image);
      k := 0;
    } else {
      Overlaps(before, image.xsize, image.ysize, ps, p, ix, iy);
      k :| k < |ps| && !Disjoint(ps[k], p);
    }
  }

  lemma TiledNow(image: AcStrategyImage)
    requires image.Valid() && image.IsTiled()
    ensures AreDisjoint(image.placements)
  {
    TiledAreDisjoint(image.Contents(), image.xsize, image.ysize, image.placements);
  }
}
