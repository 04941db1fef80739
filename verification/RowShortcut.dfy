/** The shortcut for constant rows (experimental/fast_lossless/fast_lossless.cc:887-890, 904-908): rows are
skipped while the OR of all samples is 0 or the AND is 255, and exactly when that is right.
 */
module RowShortcut {
  import opened Bits
  import opened Prediction
  import opened PlaneCoding
  import opened Sequences

  // ----- bitwise accumulators over 16-bit patterns -----

  function And16(a: nat, b: nat): nat
    decreases a
  {
    if a == 0 || b == 0 then 0 else 2 * And16(a / 2, b / 2) + if a % 2 == 1 && b % 2 == 1 then 1 else 0
  }

  function Or16(a: nat, b: nat): nat
    decreases a
  {
    if a == 0 then b else 2 * Or16(a / 2, b / 2) + if a % 2 == 1 || b % 2 == 1 then 1 else 0
  }

  lemma {:induction false} OrIsZero(a: nat, b: nat)
    ensures Or16(a, b) == 0 <==> a == 0 && b == 0
    decreases a
  {
    if a > 0 {
      OrIsZero(a / 2, b / 2);
    }
  }

  lemma {:induction false} AndAtMost(a: nat, b: nat)
    ensures And16(a, b) <= a && And16(a, b) <= b
    decreases a
  {
    if a > 0 && b > 0 {
      AndAtMost(a / 2, b / 2);
    }
  }

  /** Low bits that are all set in the AND are set in both. */
  lemma {:induction false} AndLowOnes(a: nat, b: nat, n: nat)
    requires Low(And16(a, b), n) == Pow2(n) - 1
    ensures Low(a, n) == Pow2(n) - 1 && Low(b, n) == Pow2(n) - 1
    decreases n
  {
    if n > 0 {
      if a == 0 || b == 0 {
        LowZero(n);
      } else {
        AndHalves(a, b);
        LowParts(And16(a, b), n);
        LowParts(a, n);
        LowParts(b, n);
        LowBelow(And16(a, b) / 2, n - 1);
        AndLowOnes(a / 2, b / 2, n - 1);
      }
    }
  }

  lemma AndHalves(a: nat, b: nat)
    requires a > 0 && b > 0
    ensures And16(a, b) / 2 == And16(a / 2, b / 2) && (And16(a, b) % 2 == 1 <==> a % 2 == 1 && b % 2 == 1)
  {
  }

  lemma LowParts(v: nat, n: nat)
    requires n > 0
    ensures Low(v, n) == v % 2 + 2 * Low(v / 2, n - 1)
  {
  }

  lemma {:induction false} LowZero(n: nat)
    ensures Low(0, n) == 0
    decreases n
  {
    if n > 0 {
      LowZero(n - 1);
    }
  }

  lemma LowBelow(v: nat, n: nat)
    ensures Low(v, n) < Pow2(n)
  {
    ShiftSplit(v, n);
  }

  /** The AND with ones keeps the low bits. */
  lemma {:induction false} AndOnes(v: nat, n: nat)
    ensures And16(Pow2(n) - 1, v) == Low(v, n)
    decreases n
  {
    if n > 0 {
      if v == 0 {
        LowZero(n);
      } else {
        AndOnes(v / 2, n - 1);
        LowParts(v, n);
        assert (Pow2(n) - 1) / 2 == Pow2(n - 1) - 1 && (Pow2(n) - 1) % 2 == 1;
      }
    }
  }

  function OrRow(acc: nat, row: Row): nat {
    if row == [] then acc else Or16(OrRow(acc, row[..|row| - 1]), ToUint16(row[|row| - 1]))
  }

  function AndRow(acc: nat, row: Row): nat {
    if row == [] then acc else And16(AndRow(acc, row[..|row| - 1]), ToUint16(row[|row| - 1]))
  }

  function OrRows(rows: seq<Row>): nat {
    if rows == [] then 0 else OrRow(OrRows(rows[..|rows| - 1]), rows[|rows| - 1])
  }

  function AndRows(rows: seq<Row>): nat {
    if rows == [] then 0xFFFF else AndRow(AndRows(rows[..|rows| - 1]), rows[|rows| - 1])
  }

  lemma {:induction false} OrRowZero(acc: nat, row: Row)
    ensures OrRow(acc, row) == 0 <==> acc == 0 && forall x | 0 <= x < |row| :: ToUint16(row[x]) == 0
  {
    if row != [] {
      var n := |row| - 1;
      OrRowZero(acc, row[..n]);
      OrIsZero(OrRow(acc, row[..n]), ToUint16(row[n]));
      assert forall x | 0 <= x < n :: row[x] == row[..n][x];
    }
  }

  lemma {:induction false} OrRowsZero(rows: seq<Row>)
    requires OrRows(rows) == 0
    ensures forall y, x | 0 <= y < |rows| && 0 <= x < |rows[y]| :: ToUint16(rows[y][x]) == 0
  {
    if rows != [] {
      var n := |rows| - 1;
      OrRowZero(OrRows(rows[..n]), rows[n]);
      OrRowsZero(rows[..n]);
      assert forall y | 0 <= y < n :: rows[y] == rows[..n][y];
    }
  }

  /** All low bytes are 0xFF, and no sample is below the AND. */
  ghost predicate LowByteOnes(u: nat, bound: nat) {
    Low(u, 8) == 255 && u >= bound
  }

  lemma AndKeepsOnes(a: nat, b: nat, bound: nat)
    requires LowByteOnes(And16(a, b), bound)
    ensures LowByteOnes(a, bound) && LowByteOnes(b, bound)
  {
    Pow2Eight();
    hide Low, Pow2, And16;
    AndLowOnes(a, b, 8);
    AndAtMost(a, b);
  }

  lemma Pow2Eight()
    ensures Pow2(8) == 256 && Pow2(8) - 1 == 255 && Pow2(16) - 1 == 0xFFFF
  {
    Pow2Small();
  }

  lemma {:induction false} AndRowOnes(acc: nat, row: Row, bound: nat)
    requires LowByteOnes(AndRow(acc, row), bound)
    ensures LowByteOnes(acc, bound) && forall x | 0 <= x < |row| :: LowByteOnes(ToUint16(row[x]), bound)
  {
    hide LowByteOnes, And16, ToUint16;
    if row != [] {
      var n := |row| - 1;
      AndKeepsOnes(AndRow(acc, row[..n]), ToUint16(row[n]), bound);
      AndRowOnes(acc, row[..n], bound);
      assert forall x | 0 <= x < n :: row[x] == row[..n][x];
    }
  }

  lemma {:induction false} AndRowsOnes(rows: seq<Row>, bound: nat)
    requires LowByteOnes(AndRows(rows), bound)
    ensures forall y, x | 0 <= y < |rows| && 0 <= x < |rows[y]| :: LowByteOnes(ToUint16(rows[y][x]), bound)
  {
    if rows != [] {
      var n := |rows| - 1;
      AndRowOnes(AndRows(rows[..n]), rows[n], bound);
      AndRowsOnes(rows[..n], bound);
      assert forall y | 0 <= y < n :: rows[y] == rows[..n][y];
    }
  }

  /** Among bytes and differences of bytes only 255 and -1 have such a low byte. */
  lemma OnesAreTwoValues(v: int)
    requires -255 <= v <= 255 && Low(ToUint16(v), 8) == 255
    ensures v == 255 || v == -1
  {
    hide Low, Pow2, Shl;
    Pow2Eight();
    if v >= 0 {
      LowSmall(v, 8);
    } else {
      ShlEight();
      ShiftJoin(255, 256 + v, 8);
    }
  }

  lemma ShlEight()
    ensures Shl(255, 8) == 0xFF00
  {
    assert Shl(255, 8) == 2 * Shl(255, 7) && Shl(255, 7) == 2 * Shl(255, 6) && Shl(255, 6) == 2 * Shl(255, 5);
    assert Shl(255, 5) == 2 * Shl(255, 4) && Shl(255, 4) == 2 * Shl(255, 3) && Shl(255, 3) == 2 * Shl(255, 2);
    assert Shl(255, 2) == 2 * Shl(255, 1) && Shl(255, 1) == 2 * Shl(255, 0);
  }

  // ----- padded planes -----

  function PadRow(row: Row, xs: nat): (r: Row)
    requires 0 < |row| <= xs
    ensures |r| == xs && r[..|row|] == row && forall x | |row| <= x < xs :: r[x] == row[|row| - 1]
  {
    row + Copies(row[|row| - 1], xs - |row|)
  }

  function Pad(rows: seq<Row>, oxs: nat, xs: nat): (r: seq<Row>)
    requires 0 < oxs <= xs && forall y | 0 <= y < |rows| :: |rows[y]| == oxs
    ensures |r| == |rows| && forall y | 0 <= y < |r| :: r[y] == PadRow(rows[y], xs)
  {
    seq(|rows|, y requires 0 <= y < |rows| => PadRow(rows[y], xs))
  }

  lemma PadIsPlane(rows: seq<Row>, oxs: nat, xs: nat)
    requires oxs <= xs && IsPlane(rows, oxs)
    ensures IsPlane(Pad(rows, oxs, xs), xs)
  {
    forall y | 0 <= y < |rows| ensures IsRow(Pad(rows, oxs, xs)[y], xs) {
      assert IsRow(rows[y], oxs);
      var r := PadRow(rows[y], xs);
      forall x | 0 <= x < xs ensures -CHANNEL_LIMIT < r[x] < CHANNEL_LIMIT {
        assert r[x] == if x < oxs then rows[y][x] else rows[y][oxs - 1];
      }
    }
  }

  // ----- the shortcut -----

  /** Row `y` is not looked at, but added to the run. */
  ghost predicate Skips(rows: seq<Row>, y: nat, byteDepth1: bool)
    requires y < |rows|
  {
    y > 0 && (OrRows(rows[..y + 1]) == 0 || (byteDepth1 && AndRows(rows[..y + 1]) == 0xFF))
  }

  /** The residuals that the encoder emits for row `y`. */
  ghost function Emitted(rows: seq<Row>, oxs: nat, xs: nat, byteDepth1: bool, y: nat): (r: seq<nat>)
    requires oxs <= xs && IsPlane(rows, oxs) && y < |rows|
    ensures |r| == xs
  {
    PadIsPlane(rows, oxs, xs);
    if Skips(rows, y, byteDepth1) then Copies(Emitted(rows, oxs, xs, byteDepth1, y - 1)[xs - 1], xs)
    else PlaneRowResiduals(Pad(rows, oxs, xs), y, xs)
  }

  ghost function AllEmitted(rows: seq<Row>, oxs: nat, xs: nat, byteDepth1: bool): (r: seq<seq<nat>>)
    requires oxs <= xs && IsPlane(rows, oxs)
    ensures |r| == |rows| && forall y | 0 <= y < |r| :: r[y] == Emitted(rows, oxs, xs, byteDepth1, y)
  {
    seq(|rows|, y requires 0 <= y < |rows| => Emitted(rows, oxs, xs, byteDepth1, y))
  }

  /** The padded row ends with two equal samples. */
  predicate EndsFlat(row: Row, xs: nat) {
    |row| < xs || (|row| >= 2 && row[|row| - 2] == row[|row| - 1])
  }

  /** Row `y` repeats the row above, and the first row ends flat. */
  ghost predicate Repeats(rows: seq<Row>, xs: nat, y: nat)
    requires 0 < y < |rows|
  {
    rows[y] == rows[y - 1] && EndsFlat(rows[0], xs)
  }

  /** With one byte per sample, planes hold bytes or differences of bytes. */
  ghost predicate IsBytePlane(rows: seq<Row>) {
    forall y, x | 0 <= y < |rows| && 0 <= x < |rows[y]| :: -255 <= rows[y][x] <= 255
  }

  /** All samples of the first rows have the same value. */
  ghost predicate IsConstant(rows: seq<Row>, n: nat, v: int) {
    n <= |rows| && forall y, x | 0 <= y < n && 0 <= x < |rows[y]| :: rows[y][x] == v
  }

  predicate IsTwoValue(v: int) {
    v == 255 || v == -1
  }

  lemma ZeroRows(rows: seq<Row>, oxs: nat, y: nat)
    requires IsPlane(rows, oxs) && y < |rows| && OrRows(rows[..y + 1]) == 0
    ensures IsConstant(rows, y + 1, 0)
  {
    var first := rows[..y + 1];
    OrRowsZero(first);
    forall k, x | 0 <= k < y + 1 && 0 <= x < |rows[k]| ensures rows[k][x] == 0 {
      assert first[k] == rows[k] && IsRow(rows[k], oxs);
      assert ToUint16(first[k][x]) == 0;
    }
  }

  /** While the AND is 255, every sample is 255 or -1; without negative samples it is 255. */
  lemma OnesRows(rows: seq<Row>, y: nat)
    requires y < |rows| && AndRows(rows[..y + 1]) == 0xFF && IsBytePlane(rows)
    ensures forall k, x | 0 <= k <= y && 0 <= x < |rows[k]| ::
              IsTwoValue(rows[k][x]) && (rows[k][x] >= 0 ==> rows[k][x] == 255)
  {
    var first := rows[..y + 1];
    assert Low(255, 8) == 255 by { Pow2Small(); LowSmall(255, 8); }
    AndRowsOnes(first, 0xFF);
    forall k, x | 0 <= k <= y && 0 <= x < |rows[k]|
      ensures IsTwoValue(rows[k][x]) && (rows[k][x] >= 0 ==> rows[k][x] == 255)
    {
      assert first[k] == rows[k] && LowByteOnes(ToUint16(first[k][x]), 0xFF);
      OnesAreTwoValues(rows[k][x]);
    }
  }

  lemma ConstantRowResidual(above: Row, row: Row, w: nat, v: int)
    requires IsAbove(above, w) && IsRow(row, w) && w >= 2 && (forall x | 0 <= x < w :: row[x] == v)
    requires above != [] ==> forall x | 0 <= x < w :: above[x] == v
    ensures RowResiduals(above, row, w)[w - 1] == 0
  {
    ResidualIs(above, row, w - 1, w);
    var before := row[..w - 1];
    assert Left(above, before) == v && Top(above, before) == v && TopLeft(above, before) == v;
    UnpackInjective(RowResiduals(above, row, w)[w - 1], 0);
  }

  lemma PadConstant(rows: seq<Row>, oxs: nat, xs: nat, n: nat, v: int)
    requires oxs <= xs && IsPlane(rows, oxs) && IsConstant(rows, n, v)
    ensures IsConstant(Pad(rows, oxs, xs), n, v)
  {
    forall y, x | 0 <= y < n && 0 <= x < |Pad(rows, oxs, xs)[y]| ensures Pad(rows, oxs, xs)[y][x] == v {
      assert IsRow(rows[y], oxs);
      var r := PadRow(rows[y], xs);
      assert r[x] == if x < oxs then rows[y][x] else rows[y][oxs - 1];
    }
  }

  /** While all samples are equal, every row ends with a zero residual. */
  lemma {:induction false} ConstantEndsInZero(rows: seq<Row>, oxs: nat, xs: nat, byteDepth1: bool, y: nat, v: int)
    requires 2 <= xs && oxs <= xs && IsPlane(rows, oxs) && y < |rows| && IsConstant(rows, y + 1, v)
    ensures Emitted(rows, oxs, xs, byteDepth1, y)[xs - 1] == 0
    decreases y
  {
    if Skips(rows, y, byteDepth1) {
      ConstantEndsInZero(rows, oxs, xs, byteDepth1, y - 1, v);
    } else {
      PadIsPlane(rows, oxs, xs);
      PadConstant(rows, oxs, xs, y + 1, v);
      var padded := Pad(rows, oxs, xs);
      AboveIsAbove(padded, y, xs);
      hide PadRow, RowResiduals, Pad;
      assert padded[..y] != [] ==> Above(padded[..y]) == padded[y - 1];
      assert IsRow(padded[y], xs);
      ConstantRowResidual(Above(padded[..y]), padded[y], xs, v);
    }
  }

  lemma SameConstant(rows: seq<Row>, oxs: nat, y: nat, v: int)
    requires IsPlane(rows, oxs) && 0 < y < |rows| && IsConstant(rows, y + 1, v)
    ensures rows[y] == rows[y - 1]
  {
    assert IsRow(rows[y], oxs) && IsRow(rows[y - 1], oxs);
  }

  /** In a channel without negative samples every skipped row repeats the row above. */
  lemma NonNegativeRepeats(rows: seq<Row>, oxs: nat, xs: nat, byteDepth1: bool, y: nat)
    requires 2 <= xs && oxs <= xs && IsPlane(rows, oxs) && y < |rows| && Skips(rows, y, byteDepth1)
    requires byteDepth1 ==> IsBytePlane(rows)
    requires forall k, x | 0 <= k < |rows| && 0 <= x < |rows[k]| :: rows[k][x] >= 0
    ensures Repeats(rows, xs, y)
  {
    hide OrRows, AndRows;
    assert |rows[0]| == oxs by { assert IsRow(rows[0], oxs); }
    if OrRows(rows[..y + 1]) == 0 {
      ZeroRows(rows, oxs, y);
      SameConstant(rows, oxs, y, 0);
    } else {
      OnesRows(rows, y);
      assert IsConstant(rows, y + 1, 255);
      SameConstant(rows, oxs, y, 255);
    }
  }

  // ----- the last residual -----

  /** All samples of the first rows are 255 or -1. */
  ghost predicate AreTwoValued(rows: seq<Row>, n: nat) {
    n <= |rows| && forall y, x | 0 <= y < n && 0 <= x < |rows[y]| :: IsTwoValue(rows[y][x])
  }

  lemma {:induction false} AndRowTwoValued(acc: nat, row: Row)
    requires acc in {0xFF, 0xFFFF} && forall x | 0 <= x < |row| :: IsTwoValue(row[x])
    ensures AndRow(acc, row) == 0xFF || (AndRow(acc, row) == acc == 0xFFFF && forall x | 0 <= x < |row| :: row[x] == -1)
    decreases |row|
  {
    hide And16;
    AndOfOnes();
    if row != [] {
      AndRowTwoValued(acc, row[..|row| - 1]);
    }
  }

  lemma {:induction false} AndRowsTwoValued(rows: seq<Row>)
    requires AreTwoValued(rows, |rows|)
    ensures AndRows(rows) == 0xFF || (AndRows(rows) == 0xFFFF && IsConstant(rows, |rows|, -1))
    decreases |rows|
  {
    hide AndRow, IsTwoValue;
    if rows != [] {
      var n := |rows| - 1;
      AndRowsTwoValued(rows[..n]);
      AndRowTwoValued(AndRows(rows[..n]), rows[n]);
    }
  }

  lemma FirstRowLast(row: Row, xs: nat)
    requires IsRow(row, xs) && xs >= 2
    ensures RowResiduals([], row, xs)[xs - 1] == 0 <==> row[xs - 2] == row[xs - 1]
  {
    ResidualIs([], row, xs - 1, xs);
    if row[xs - 2] == row[xs - 1] {
      UnpackInjective(RowResiduals([], row, xs)[xs - 1], 0);
    }
  }

  lemma PadEndsFlat(row: Row, xs: nat)
    requires 0 < |row| <= xs && xs >= 2
    ensures PadRow(row, xs)[xs - 2] == PadRow(row, xs)[xs - 1] <==> EndsFlat(row, xs)
  {
    var r := PadRow(row, xs);
    assert forall x | 0 <= x < |row| :: r[x] == r[..|row|][x] == row[x];
  }

  lemma FirstEmitted(rows: seq<Row>, oxs: nat, xs: nat, byteDepth1: bool)
    requires 2 <= xs && oxs <= xs && IsPlane(rows, oxs) && rows != []
    ensures Emitted(rows, oxs, xs, byteDepth1, 0)[xs - 1] == 0 <==> EndsFlat(rows[0], xs)
  {
    PadIsPlane(rows, oxs, xs);
    var padded := Pad(rows, oxs, xs);
    assert IsRow(padded[0], xs) && IsRow(rows[0], oxs) && padded[..0] == [];
    hide RowResiduals, PadRow;
    FirstRowLast(padded[0], xs);
    PadEndsFlat(rows[0], xs);
  }

  /** While all samples are 255 or -1, rows that are not skipped are all -1, and so the last residual is
      zero exactly if that of the first row is. */
  lemma {:induction false} TwoValuedLast(rows: seq<Row>, oxs: nat, xs: nat, y: nat)
    requires 2 <= xs && oxs <= xs && IsPlane(rows, oxs) && y < |rows| && AreTwoValued(rows, y + 1)
    ensures Emitted(rows, oxs, xs, true, y)[xs - 1] == 0 <==> EndsFlat(rows[0], xs)
    decreases y
  {
    hide Emitted, EndsFlat, IsPlane, AndRows, OrRows;
    if y == 0 {
      FirstEmitted(rows, oxs, xs, true);
    } else if Skips(rows, y, true) {
      TwoValuedLast(rows, oxs, xs, y - 1);
      SkippedEmitted(rows, oxs, xs, true, y);
    } else {
      AndRowsTwoValued(rows[..y + 1]);
      assert IsConstant(rows[..y + 1], y + 1, -1);
      OnlyOnes(rows, y + 1);
      ConstantEndsInZero(rows, oxs, xs, true, y, -1);
      ConstantEndsInZero(rows, oxs, xs, true, 0, -1);
      FirstEmitted(rows, oxs, xs, true);
    }
  }

  lemma OnlyOnes(rows: seq<Row>, n: nat)
    requires n <= |rows| && IsConstant(rows[..n], n, -1)
    ensures forall k | 0 <= k <= n :: IsConstant(rows, k, -1)
  {
    forall y, x | 0 <= y < n && 0 <= x < |rows[y]| ensures rows[y][x] == -1 {
      assert rows[..n][y] == rows[y];
    }
  }

  lemma SkippedEmitted(rows: seq<Row>, oxs: nat, xs: nat, byteDepth1: bool, y: nat)
    requires oxs <= xs && IsPlane(rows, oxs) && y < |rows| && Skips(rows, y, byteDepth1)
    ensures Emitted(rows, oxs, xs, byteDepth1, y) == Copies(Emitted(rows, oxs, xs, byteDepth1, y - 1)[xs - 1], xs)
  {
    hide Skips;
  }

  /** The residual that a skipped row repeats is zero exactly if the first row ends flat. */
  lemma LastBeforeSkip(rows: seq<Row>, oxs: nat, xs: nat, byteDepth1: bool, y: nat)
    requires 2 <= xs && oxs <= xs && IsPlane(rows, oxs) && y < |rows| && Skips(rows, y, byteDepth1)
    requires byteDepth1 ==> IsBytePlane(rows)
    ensures Emitted(rows, oxs, xs, byteDepth1, y - 1)[xs - 1] == 0 <==> EndsFlat(rows[0], xs)
  {
    hide Emitted, OrRows, AndRows;
    assert |rows[0]| == oxs by { assert IsRow(rows[0], oxs); }
    if OrRows(rows[..y + 1]) == 0 {
      ZeroRows(rows, oxs, y);
      ConstantEndsInZero(rows, oxs, xs, byteDepth1, y - 1, 0);
    } else {
      OnesRows(rows, y);
      TwoValuedLast(rows, oxs, xs, y - 1);
    }
  }

  // ----- what a decoder sees -----

  lemma CropResiduals(above: Row, row: Row, oxs: nat, xs: nat)
    requires 0 < oxs <= xs && IsAbove(above, oxs) && IsRow(row, oxs)
    ensures var padded := if above == [] then [] else PadRow(above, xs);
            IsAbove(padded, xs) && IsRow(PadRow(row, xs), xs) &&
            RowResiduals(padded, PadRow(row, xs), xs)[..oxs] == RowResiduals(above, row, oxs)
  {
    var padded := if above == [] then [] else PadRow(above, xs);
    PadRowIsRow(row, oxs, xs);
    if above != [] {
      PadRowIsRow(above, oxs, xs);
      assert padded[..oxs] == above;
    }
    hide PadRow, RowResiduals, IsRow, IsAbove;
    forall x: nat | x < oxs ensures RowResiduals(padded, PadRow(row, xs), xs)[x] == RowResiduals(above, row, oxs)[x] {
      assert CropAbove(padded, oxs) == above;
      SameResidual(padded, PadRow(row, xs), xs, above, row, oxs, x);
    }
  }

  lemma ResidualOfSample(above: Row, row: Row, w: nat, x: nat)
    requires IsAbove(above, w) && IsRow(row, w) && x < w
    ensures Fits(above, row[..x]) &&
            RowResiduals(above, row, w)[x] == PackSigned(ToInt16(row[x] - Guess(above, row[..x])))
  {
    hide Guess, PackSigned, ToInt16;
    ResidualIs(above, row, x, w);
  }

  lemma SameResidual(a: Row, r: Row, xs: nat, above: Row, row: Row, oxs: nat, x: nat)
    requires IsAbove(a, xs) && IsRow(r, xs) && IsAbove(above, oxs) && IsRow(row, oxs) && x < oxs <= xs
    requires (a == [] || oxs <= |a|) && CropAbove(a, oxs) == above && r[..oxs] == row
    ensures RowResiduals(a, r, xs)[x] == RowResiduals(above, row, oxs)[x]
  {
    hide Guess, PackSigned, ToInt16, RowResiduals, CropAbove;
    ResidualOfSample(a, r, xs, x);
    ResidualOfSample(above, row, oxs, x);
    assert r[..oxs][..x] == r[..x] && r[..oxs][x] == r[x];
    GuessCropped(a, row[..x], oxs);
  }

  lemma PadRowIsRow(row: Row, oxs: nat, xs: nat)
    requires 0 < oxs <= xs && IsRow(row, oxs)
    ensures IsRow(PadRow(row, xs), xs)
  {
    var r := PadRow(row, xs);
    forall x | 0 <= x < xs ensures -CHANNEL_LIMIT < r[x] < CHANNEL_LIMIT {
      assert r[x] == if x < oxs then r[..oxs][x] else row[oxs - 1];
    }
  }

  /** What a row that is not skipped emits is right. */
  lemma ProcessedIsRight(rows: seq<Row>, oxs: nat, xs: nat, byteDepth1: bool, y: nat)
    requires 2 <= xs && oxs <= xs && IsPlane(rows, oxs) && y < |rows| && !Skips(rows, y, byteDepth1)
    ensures Emitted(rows, oxs, xs, byteDepth1, y)[..oxs] == PlaneRowResiduals(rows, y, oxs)
  {
    hide PadRow, RowResiduals, Skips, Pad;
    PadIsPlane(rows, oxs, xs);
    PlaneRowIs(rows, oxs, y);
    PlaneRowIs(Pad(rows, oxs, xs), xs, y);
    PaddedRows(rows, oxs, xs, y);
    CropResiduals(Above(rows[..y]), rows[y], oxs, xs);
  }

  lemma PlaneRowIs(rows: seq<Row>, w: nat, y: nat)
    requires IsPlane(rows, w) && y < |rows|
    ensures IsAbove(Above(rows[..y]), w) && IsRow(rows[y], w)
    ensures PlaneRowResiduals(rows, y, w) == RowResiduals(Above(rows[..y]), rows[y], w)
  {
    AboveIsAbove(rows, y, w);
    hide RowResiduals, IsRow;
  }

  lemma PaddedRows(rows: seq<Row>, oxs: nat, xs: nat, y: nat)
    requires oxs <= xs && IsPlane(rows, oxs) && y < |rows|
    ensures |rows[y]| == oxs && Pad(rows, oxs, xs)[y] == PadRow(rows[y], xs)
    ensures Above(Pad(rows, oxs, xs)[..y]) == if Above(rows[..y]) == [] then [] else PadRow(Above(rows[..y]), xs)
  {
    assert IsRow(rows[y], oxs) && (y > 0 ==> IsRow(rows[y - 1], oxs));
    hide PadRow;
  }

  /** What a skipped row emits is right exactly if the row repeats the one above and the first row ends
      flat. */
  lemma SkippedRowIff(rows: seq<Row>, oxs: nat, xs: nat, byteDepth1: bool, y: nat)
    requires 2 <= xs && oxs <= xs && IsPlane(rows, oxs) && y < |rows| && Skips(rows, y, byteDepth1)
    requires byteDepth1 ==> IsBytePlane(rows)
    ensures Emitted(rows, oxs, xs, byteDepth1, y)[..oxs] == PlaneRowResiduals(rows, y, oxs) <==> Repeats(rows, xs, y)
  {
    assert y > 0;
    hide Emitted, RowResiduals, PlaneRowResiduals, IsPlane, EndsFlat, Skips, IsRow;
    var u := Emitted(rows, oxs, xs, byteDepth1, y - 1)[xs - 1];
    SkippedEmitted(rows, oxs, xs, byteDepth1, y);
    LastBeforeSkip(rows, oxs, xs, byteDepth1, y);
    RowResidualsOf(rows, oxs, y);
    assert Copies(u, xs)[..oxs] == Copies(u, oxs);
    ZeroResiduals(rows[y - 1], rows[y], oxs);
    if Copies(u, oxs) == RowResiduals(rows[y - 1], rows[y], oxs) {
      SkippedIsZero(rows, oxs, xs, byteDepth1, y, u);
    }
    if u == 0 && rows[y] == rows[y - 1] {
      assert Copies(u, oxs) == RowResiduals(rows[y - 1], rows[y], oxs);
    }
  }

  lemma RowResidualsOf(rows: seq<Row>, oxs: nat, y: nat)
    requires IsPlane(rows, oxs) && 0 < y < |rows|
    ensures IsRow(rows[y - 1], oxs) && IsRow(rows[y], oxs) && |rows[0]| == oxs > 0
    ensures PlaneRowResiduals(rows, y, oxs) == RowResiduals(rows[y - 1], rows[y], oxs)
  {
    AboveIsAbove(rows, y, oxs);
    assert IsRow(rows[0], oxs) && Above(rows[..y]) == rows[y - 1];
    hide RowResiduals;
  }

  lemma SkippedIsZero(rows: seq<Row>, oxs: nat, xs: nat, byteDepth1: bool, y: nat, u: nat)
    requires 2 <= xs && oxs <= xs && IsPlane(rows, oxs) && y < |rows| && Skips(rows, y, byteDepth1)
    requires (byteDepth1 ==> IsBytePlane(rows)) && IsRow(rows[y - 1], oxs) && IsRow(rows[y], oxs) && |rows[0]| == oxs
    requires Copies(u, oxs) == RowResiduals(rows[y - 1], rows[y], oxs) && (u == 0 <==> EndsFlat(rows[0], xs))
    ensures Repeats(rows, xs, y) && u == 0
  {
    var r := RowResiduals(rows[y - 1], rows[y], oxs);
    ZeroResiduals(rows[y - 1], rows[y], oxs);
    hide RowResiduals, OrRows, AndRows;
    assert forall x | 0 <= x < oxs :: r[x] == u by { assert forall x | 0 <= x < oxs :: Copies(u, oxs)[x] == u; }
    if OrRows(rows[..y + 1]) == 0 {
      ZeroRows(rows, oxs, y);
      SameConstant(rows, oxs, y, 0);
      assert r[0] == 0;
    } else if oxs >= 2 {
      OnesRows(rows, y);
      EqualResidualsAreZero(rows[y - 1], rows[y], oxs, u);
    }
  }

  /** The visible columns of what is decoded are the channel if and only if every skipped row repeats the
      row above and the first row ends flat. */
  lemma ReversibleIff(rows: seq<Row>, oxs: nat, xs: nat, byteDepth1: bool)
    requires 2 <= xs && oxs <= xs && IsPlane(rows, oxs) && (byteDepth1 ==> IsBytePlane(rows))
    ensures Crop(DecodePlane(AllEmitted(rows, oxs, xs, byteDepth1), xs), oxs) == rows <==>
            forall y | 0 <= y < |rows| && Skips(rows, y, byteDepth1) :: Repeats(rows, xs, y)
  {
    var emitted := AllEmitted(rows, oxs, xs, byteDepth1);
    assert oxs > 0;
    hide PlaneRowResiduals, Skips, Repeats, DecodePlane, Emitted, IsPlane;
    CropDecodes(emitted, xs, oxs);
    DecodePlaneIff(rows, oxs, Crop(emitted, oxs));
    forall y: nat | y < |rows|
      ensures Crop(emitted, oxs)[y] == PlaneRowResiduals(rows, y, oxs) <==>
              (Skips(rows, y, byteDepth1) ==> Repeats(rows, xs, y))
    {
      if Skips(rows, y, byteDepth1) {
        SkippedRowIff(rows, oxs, xs, byteDepth1, y);
      } else {
        ProcessedIsRight(rows, oxs, xs, byteDepth1, y);
      }
    }
  }

  /** A signed channel whose rows are all 255 and then all -1: the AND cannot tell the two apart, the
      second row is skipped, and decoding does not give it back. */
  lemma SignedChannelIsLost()
    ensures var rows := [Copies(255, 16), Copies(-1, 16)];
            IsPlane(rows, 16) && IsBytePlane(rows) && Skips(rows, 1, true) && !Repeats(rows, 16, 1) &&
            Crop(DecodePlane(AllEmitted(rows, 16, 16, true), 16), 16) != rows
  {
    hide DecodePlane, AllEmitted, Skips, Crop;
    var rows: seq<Row> := [Copies(255, 16), Copies(-1, 16)];
    SecondRowSkipped(rows);
    assert rows[1][0] != rows[0][0];
    ReversibleIff(rows, 16, 16, true);
  }

  lemma SecondRowSkipped(rows: seq<Row>)
    requires rows == [Copies(255, 16), Copies(-1, 16)]
    ensures IsPlane(rows, 16) && IsBytePlane(rows) && Skips(rows, 1, true)
  {
    assert IsRow(rows[0], 16) && IsRow(rows[1], 16);
    assert rows[..2] == rows && rows[..1] == [rows[0]] && rows[..1][..0] == [];
    AndConstant(0xFFFF, rows[0], 255, 0xFF);
    AndConstant(0xFF, rows[1], -1, 0xFF);
    hide AndRow;
    assert AndRows(rows[..1]) == AndRow(AndRows(rows[..1][..0]), rows[0]);
    assert AndRows(rows) == AndRow(AndRows(rows[..1]), rows[1]);
  }

  lemma {:induction false} AndConstant(acc: nat, row: Row, v: int, r: nat)
    requires (acc, v, r) in {(0xFFFF, 255, 0xFF), (0xFF, -1, 0xFF)} && row != []
    requires forall x | 0 <= x < |row| :: row[x] == v
    ensures AndRow(acc, row) == r
  {
    hide And16;
    var n := |row| - 1;
    AndOfOnes();
    if n > 0 {
      AndConstant(acc, row[..n], v, r);
    } else {
      assert row[..0] == [];
    }
  }

  lemma AndOfOnes()
    ensures And16(0xFFFF, 255) == 255 && And16(255, 255) == 255 && And16(255, 0xFFFF) == 255
    ensures And16(0xFFFF, 0xFFFF) == 0xFFFF
  {
    hide And16, Low, Pow2, Shl, Shr;
    Pow2Eight();
    AndOnes(0xFFFF, 16);
    LowSmall(0xFFFF, 16);
    AndOnes(255, 16);
    AndOnes(255, 8);
    AndOnes(0xFFFF, 8);
    LowSmall(255, 16);
    LowSmall(255, 8);
    ShlEight();
    ShiftJoin(255, 255, 8);
  }
}
