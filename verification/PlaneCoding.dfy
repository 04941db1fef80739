/** Prediction over a whole channel (experimental/fast_lossless/fast_lossless.cc:784-807, 829-919) and
its inverse, and exactly when the shortcut for constant rows keeps it reversible.
 */
module PlaneCoding {
  import opened Prediction

  type Row = seq<int>

  /** Sample range after the colour transform of at most 12 bits. */
  const CHANNEL_LIMIT: int := 0x1000

  ghost predicate IsRow(row: Row, w: nat) {
    |row| == w && forall x | 0 <= x < w :: -CHANNEL_LIMIT < row[x] < CHANNEL_LIMIT
  }

  ghost predicate IsPlane(rows: seq<Row>, w: nat) {
    w > 0 && forall y | 0 <= y < |rows| :: IsRow(rows[y], w)
  }

  // ----- neighbours: `above` is the previous row, empty for the first; `before` is the row so far -----

  ghost predicate Fits(above: Row, before: Row) {
    above == [] || |before| < |above|
  }

  function Left(above: Row, before: Row): int {
    if before != [] then before[|before| - 1] else if above != [] then above[0] else 0
  }

  function Top(above: Row, before: Row): int
    requires Fits(above, before)
  {
    if above == [] then Left(above, before) else above[|before|]
  }

  function TopLeft(above: Row, before: Row): int
    requires Fits(above, before)
  {
    if above == [] || before == [] then Left(above, before) else above[|before| - 1]
  }

  function Guess(above: Row, before: Row): int
    requires Fits(above, before)
  {
    ClampedGradient(Left(above, before), Top(above, before), TopLeft(above, before))
  }

  // ----- rows -----

  ghost predicate IsAbove(above: Row, w: nat) {
    above == [] || IsRow(above, w)
  }

  lemma GuessInRange(above: Row, before: Row, w: nat)
    requires IsAbove(above, w) && IsRow(before, |before|) && |before| < w
    ensures Fits(above, before) && -CHANNEL_LIMIT < Guess(above, before) < CHANNEL_LIMIT
  {
    MedianBetween(Left(above, before), Top(above, before), TopLeft(above, before));
    hide ClampedGradient;
  }

  lemma MedianBetween(left: int, top: int, topleft: int)
    ensures left <= top ==> left <= ClampedGradient(left, top, topleft) <= top
    ensures top <= left ==> top <= ClampedGradient(left, top, topleft) <= left
  {
  }

  function Residual(above: Row, row: Row, x: nat): (r: nat)
    requires x < |row| && Fits(above, row[..x])
  {
    PackSigned(ToInt16(row[x] - Guess(above, row[..x])))
  }

  lemma ResidualIs(above: Row, row: Row, x: nat, w: nat)
    requires IsAbove(above, w) && IsRow(row, w) && x < w
    ensures Fits(above, row[..x])
    ensures Residual(above, row, x) < 0xFFFF
    ensures UnpackSigned(Residual(above, row, x)) == row[x] - Guess(above, row[..x])
  {
    GuessInRange(above, row[..x], w);
    UnpackPacked(row[x] - Guess(above, row[..x]));
  }

  /** The residuals of a row. */
  ghost function RowResiduals(above: Row, row: Row, w: nat): (r: seq<nat>)
    requires IsAbove(above, w) && IsRow(row, w)
    ensures |r| == w
  {
    seq(w, x requires 0 <= x < w => (ResidualIs(above, row, x, w); Residual(above, row, x)))
  }

  /** The first `n` samples of the decoder's row. */
  function DecodeRow(above: Row, residuals: seq<nat>, n: nat): (row: Row)
    requires n <= |residuals| && (above == [] || n <= |above|)
    ensures |row| == n
  {
    if n == 0 then []
    else
      var before := DecodeRow(above, residuals, n - 1);
      before + [UnpackSigned(residuals[n - 1]) + Guess(above, before)]
  }

  lemma {:induction false} DecodeRowInverts(above: Row, row: Row, w: nat, n: nat)
    requires IsAbove(above, w) && IsRow(row, w) && n <= w
    ensures DecodeRow(above, RowResiduals(above, row, w), n) == row[..n]
    decreases n
  {
    hide Guess, UnpackSigned;
    if n > 0 {
      DecodeRowInverts(above, row, w, n - 1);
      ResidualIs(above, row, n - 1, w);
      assert RowResiduals(above, row, w)[n - 1] == Residual(above, row, n - 1);
      assert row[..n] == row[..n - 1] + [row[n - 1]];
    }
  }

  lemma UnpackInjective(u: nat, v: nat)
    requires UnpackSigned(u) == UnpackSigned(v)
    ensures u == v
  {
  }

  /** Different residuals decode to different rows. */
  lemma {:induction false} DecodeRowInjective(above: Row, r: seq<nat>, s: seq<nat>, n: nat)
    requires n <= |r| && n <= |s| && (above == [] || n <= |above|) && DecodeRow(above, r, n) == DecodeRow(above, s, n)
    ensures r[..n] == s[..n]
    decreases n
  {
    hide Guess, UnpackSigned;
    if n > 0 {
      var a, b := DecodeRow(above, r, n - 1), DecodeRow(above, s, n - 1);
      SameAppend(a, UnpackSigned(r[n - 1]) + Guess(above, a), b, UnpackSigned(s[n - 1]) + Guess(above, b));
      DecodeRowInjective(above, r, s, n - 1);
      UnpackInjective(r[n - 1], s[n - 1]);
      assert r[..n] == r[..n - 1] + [r[n - 1]] && s[..n] == s[..n - 1] + [s[n - 1]];
    }
  }

  lemma SameAppend<T>(a: seq<T>, x: T, b: seq<T>, y: T)
    requires |a| == |b| && a + [x] == b + [y]
    ensures a == b && x == y
  {
    assert (a + [x])[..|a|] == a && (b + [y])[..|b|] == b;
    assert (a + [x])[|a|] == x && (b + [y])[|b|] == y;
  }

  // ----- planes -----

  function Above(rows: seq<Row>): Row {
    if rows == [] then [] else rows[|rows| - 1]
  }

  /** The decoder's plane, row by row. */
  function DecodePlane(residuals: seq<seq<nat>>, w: nat): (rows: seq<Row>)
    requires forall y | 0 <= y < |residuals| :: |residuals[y]| == w
    ensures |rows| == |residuals| && forall y | 0 <= y < |rows| :: |rows[y]| == w
  {
    if residuals == [] then []
    else
      var n := |residuals| - 1;
      var before := DecodePlane(residuals[..n], w);
      before + [DecodeRow(if w == 0 then [] else Above(before), residuals[n], w)]
  }

  lemma AboveIsAbove(rows: seq<Row>, y: nat, w: nat)
    requires IsPlane(rows, w) && y <= |rows|
    ensures IsAbove(Above(rows[..y]), w)
  {
  }

  ghost function PlaneRowResiduals(rows: seq<Row>, y: nat, w: nat): (r: seq<nat>)
    requires IsPlane(rows, w) && y < |rows|
    ensures |r| == w
  {
    AboveIsAbove(rows, y, w);
    RowResiduals(Above(rows[..y]), rows[y], w)
  }

  /** A plane is recovered from residual rows exactly if they are its own. */
  lemma {:induction false} DecodePlaneIff(rows: seq<Row>, w: nat, residuals: seq<seq<nat>>)
    requires IsPlane(rows, w) && |residuals| == |rows| && forall y | 0 <= y < |residuals| :: |residuals[y]| == w
    ensures DecodePlane(residuals, w) == rows <==>
            forall y | 0 <= y < |rows| :: residuals[y] == PlaneRowResiduals(rows, y, w)
    decreases |rows|
  {
    if rows != [] {
      var n := |rows| - 1;
      var first, prefix := rows[..n], residuals[..n];
      hide DecodePlane, DecodeRow, PlaneRowResiduals, RowResiduals, IsRow;
      DecodePlaneIff(first, w, prefix);
      LastRowIff(rows, w, residuals);
      PrefixResiduals(rows, w, n);
      assert forall y | 0 <= y < n :: prefix[y] == residuals[y];
    }
  }

  lemma PrefixResiduals(rows: seq<Row>, w: nat, n: nat)
    requires IsPlane(rows, w) && n <= |rows|
    ensures IsPlane(rows[..n], w)
    ensures forall y | 0 <= y < n :: PlaneRowResiduals(rows[..n], y, w) == PlaneRowResiduals(rows, y, w)
  {
    hide RowResiduals, IsRow;
    forall y | 0 <= y < n ensures PlaneRowResiduals(rows[..n], y, w) == PlaneRowResiduals(rows, y, w) {
      assert rows[..n][..y] == rows[..y];
    }
  }

  lemma LastRowIff(rows: seq<Row>, w: nat, residuals: seq<seq<nat>>)
    requires IsPlane(rows, w) && rows != [] && |residuals| == |rows|
    requires forall y | 0 <= y < |residuals| :: |residuals[y]| == w
    ensures var n := |rows| - 1;
            DecodePlane(residuals, w) == rows <==>
            DecodePlane(residuals[..n], w) == rows[..n] && residuals[n] == PlaneRowResiduals(rows, n, w)
  {
    hide DecodePlane, DecodeRow, RowResiduals, IsRow;
    var n := |rows| - 1;
    var before := DecodePlane(residuals[..n], w);
    var last := DecodeRow(Above(before), residuals[n], w);
    DecodeLast(residuals, w);
    LastIsRow(rows, w);
    assert rows == rows[..n] + [rows[n]];
    AboveIsAbove(rows, n, w);
    DecodeRowInverts(Above(rows[..n]), rows[n], w, w);
    assert rows[n][..w] == rows[n];
    if before + [last] == rows[..n] + [rows[n]] {
      SameAppend(before, last, rows[..n], rows[n]);
      DecodeRowInjective(Above(before), residuals[n], PlaneRowResiduals(rows, n, w), w);
      assert residuals[n][..w] == residuals[n] && PlaneRowResiduals(rows, n, w)[..w] == PlaneRowResiduals(rows, n, w);
    }
  }

  lemma DecodeLast(residuals: seq<seq<nat>>, w: nat)
    requires w > 0 && residuals != [] && forall y | 0 <= y < |residuals| :: |residuals[y]| == w
    ensures var n := |residuals| - 1;
            var before := DecodePlane(residuals[..n], w);
            DecodePlane(residuals, w) == before + [DecodeRow(Above(before), residuals[n], w)]
  {
    hide DecodeRow;
  }

  lemma LastIsRow(rows: seq<Row>, w: nat)
    requires IsPlane(rows, w) && rows != []
    ensures IsRow(rows[|rows| - 1], w) && |rows[|rows| - 1]| == w && IsPlane(rows[..|rows| - 1], w)
  {
  }

  // ----- the first columns -----

  function Crop<T>(rows: seq<seq<T>>, w: nat): (r: seq<seq<T>>)
    requires forall y | 0 <= y < |rows| :: w <= |rows[y]|
    ensures |r| == |rows| && forall y | 0 <= y < |r| :: r[y] == rows[y][..w]
  {
    seq(|rows|, y requires 0 <= y < |rows| => rows[y][..w])
  }

  /** The row above, up to column `w`. */
  function CropAbove(above: Row, w: nat): (r: Row)
    requires above == [] || w <= |above|
    ensures above == [] ==> r == []
    ensures above != [] ==> |r| == w && forall x | 0 <= x < w :: r[x] == above[x]
  {
    if above == [] then [] else above[..w]
  }

  /** Prediction never looks to the right. */
  lemma GuessCropped(above: Row, before: Row, w: nat)
    requires |before| < w && (above == [] || w <= |above|)
    ensures Fits(above, before) && Fits(CropAbove(above, w), before)
    ensures Guess(above, before) == Guess(CropAbove(above, w), before)
  {
    hide ClampedGradient;
  }

  lemma {:induction false} DecodeRowCropped(above: Row, residuals: seq<nat>, w: nat, n: nat)
    requires n <= w <= |residuals| && (above == [] || w <= |above|)
    ensures DecodeRow(above, residuals, n) == DecodeRow(CropAbove(above, w), residuals[..w], n)
    decreases n
  {
    hide Guess, UnpackSigned;
    if n > 0 {
      DecodeRowCropped(above, residuals, w, n - 1);
      GuessCropped(above, DecodeRow(above, residuals, n - 1), w);
    }
  }

  lemma {:induction false} DecodeRowPrefix(above: Row, residuals: seq<nat>, m: nat, n: nat)
    requires m <= n <= |residuals| && (above == [] || n <= |above|)
    ensures DecodeRow(above, residuals, n)[..m] == DecodeRow(above, residuals, m)
    decreases n
  {
    hide Guess, UnpackSigned;
    if m < n {
      DecodeRowPrefix(above, residuals, m, n - 1);
      var before := DecodeRow(above, residuals, n - 1);
      assert DecodeRow(above, residuals, n)[..m] == before[..m];
    }
  }

  /** The first columns of a decoded plane only depend on the first columns of the residuals. */
  lemma {:induction false} CropDecodes(residuals: seq<seq<nat>>, xs: nat, w: nat)
    requires 0 < w <= xs && forall y | 0 <= y < |residuals| :: |residuals[y]| == xs
    ensures Crop(DecodePlane(residuals, xs), w) == DecodePlane(Crop(residuals, w), w)
    decreases |residuals|
  {
    if residuals != [] {
      var n := |residuals| - 1;
      CropDecodes(residuals[..n], xs, w);
      var before := DecodePlane(residuals[..n], xs);
      assert Crop(residuals, w)[..n] == Crop(residuals[..n], w);
      CropLast(before, residuals[n], xs, w);
      hide DecodeRow, Crop;
      assert DecodePlane(residuals, xs) == before + [DecodeRow(Above(before), residuals[n], xs)];
      CropAppend(before, DecodeRow(Above(before), residuals[n], xs), w);
    }
  }

  lemma CropLast(before: seq<Row>, residuals: seq<nat>, xs: nat, w: nat)
    requires 0 < w <= xs == |residuals| && forall y | 0 <= y < |before| :: |before[y]| == xs
    ensures DecodeRow(Above(before), residuals, xs)[..w] == DecodeRow(Above(Crop(before, w)), residuals[..w], w)
  {
    hide DecodeRow;
    DecodeRowPrefix(Above(before), residuals, w, xs);
    DecodeRowCropped(Above(before), residuals, w, w);
    assert Above(Crop(before, w)) == CropAbove(Above(before), w);
  }

  lemma CropAppend<T>(rows: seq<seq<T>>, row: seq<T>, w: nat)
    requires w <= |row| && forall y | 0 <= y < |rows| :: w <= |rows[y]|
    ensures Crop(rows + [row], w) == Crop(rows, w) + [row[..w]]
  {
  }

  // ----- constant rows -----

  /** All residuals of a row are zero exactly if it equals the row above. */
  lemma {:induction false} ZeroResiduals(above: Row, row: Row, w: nat)
    requires IsRow(above, w) && IsRow(row, w) && w > 0
    ensures (forall x | 0 <= x < w :: RowResiduals(above, row, w)[x] == 0) <==> row == above
  {
    var r := RowResiduals(above, row, w);
    if forall x | 0 <= x < w :: r[x] == 0 {
      ZeroKeepsRow(above, row, w, w);
    }
    if row == above {
      forall x | 0 <= x < w ensures r[x] == 0 {
        ResidualIs(above, row, x, w);
        UnpackInjective(r[x], 0);
      }
    }
  }

  lemma {:induction false} ZeroKeepsRow(above: Row, row: Row, w: nat, n: nat)
    requires IsRow(above, w) && IsRow(row, w) && n <= w
    requires forall x | 0 <= x < w :: RowResiduals(above, row, w)[x] == 0
    ensures row[..n] == above[..n]
    decreases n
  {
    if n > 0 {
      ZeroKeepsRow(above, row, w, n - 1);
      ResidualIs(above, row, n - 1, w);
      assert RowResiduals(above, row, w)[n - 1] == 0;
      assert n > 1 ==> row[n - 2] == row[..n - 1][n - 2] == above[..n - 1][n - 2] == above[n - 2];
      assert row[..n] == row[..n - 1] + [row[n - 1]] && above[..n] == above[..n - 1] + [above[n - 1]];
    }
  }

  /** Where all samples are 255 or -1, residuals that are all equal are all zero. */
  lemma EqualResidualsAreZero(above: Row, row: Row, w: nat, u: nat)
    requires IsRow(above, w) && IsRow(row, w) && w >= 2
    requires forall x | 0 <= x < w :: (above[x] == 255 || above[x] == -1) && (row[x] == 255 || row[x] == -1)
    requires forall x | 0 <= x < w :: RowResiduals(above, row, w)[x] == u
    ensures u == 0
  {
    ResidualIs(above, row, 0, w);
    ResidualIs(above, row, 1, w);
    var r := RowResiduals(above, row, w);
    assert r[0] == u && r[1] == u;
    var d := UnpackSigned(u);
    assert d == row[0] - above[0];
    assert Guess(above, row[..1]) == ClampedGradient(row[0], above[1], above[0]);
    assert d == row[1] - ClampedGradient(row[0], above[1], above[0]);
    assert d == 0;
    UnpackInjective(u, 0);
  }
}
