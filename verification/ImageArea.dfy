/** `ProcessImageArea` for one channel (experimental/fast_lossless/fast_lossless.cc:784-830, 853-919): two
padded rows that take turns, borders that are patched before each row, chunks of sixteen residuals.
 */
module ImageArea {
  import opened Bits
  import opened BitReading
  import opened BitWriting
  import opened CanonicalCode
  import opened Alphabets
  import opened ChunkCoding
  import opened Prediction
  import opened PlaneCoding
  import opened RowShortcut
  import opened Sequences

  const PADDING: nat := 16
  const MAX_SIDE: nat := 256

  type Buffer = seq<int>

  /** Columns 15 up to 15 + xs of the current and the previous buffer hold what prediction needs. */
  ghost predicate IsWindow(cur: Buffer, prev: Buffer, above: Row, row: Row, xs: nat) {
    && |cur| == |prev| == MAX_SIDE + 2 * PADDING && 0 < xs <= MAX_SIDE && |row| == xs
    && cur[PADDING..PADDING + xs] == row && cur[PADDING - 1] == Left(above, [])
    && (above != [] ==> |above| == xs && prev[PADDING..PADDING + xs] == above && prev[PADDING - 1] == above[0])
  }

  lemma WindowAt(cur: Buffer, prev: Buffer, above: Row, row: Row, xs: nat, x: nat)
    requires IsWindow(cur, prev, above, row, xs) && x < xs
    ensures Fits(above, row[..x]) && cur[PADDING + x] == row[x] && cur[PADDING - 1 + x] == Left(above, row[..x])
    ensures above != [] ==> prev[PADDING + x] == Top(above, row[..x])
    ensures above != [] ==> prev[PADDING - 1 + x] == TopLeft(above, row[..x])
    ensures above == [] ==> Top(above, row[..x]) == TopLeft(above, row[..x]) == Left(above, row[..x])
  {
    assert row[x] == cur[PADDING..PADDING + xs][x];
    if x > 0 {
      assert row[x - 1] == cur[PADDING..PADDING + xs][x - 1];
    }
    if above != [] {
      assert above[x] == prev[PADDING..PADDING + xs][x];
      if x > 0 {
        assert above[x - 1] == prev[PADDING..PADDING + xs][x - 1];
      }
    }
  }

  /** One residual as the encoder computes it. */
  function ResidualOf(px: int, left: int, top: int, topleft: int): nat {
    PackSigned(ToInt16(px - Predict(left, top, topleft)))
  }

  lemma ResidualMatches(above: Row, row: Row, xs: nat, x: nat)
    requires IsAbove(above, xs) && IsRow(row, xs) && x < xs
    ensures Fits(above, row[..x])
    ensures ResidualOf(row[x], Left(above, row[..x]), Top(above, row[..x]), TopLeft(above, row[..x]))
         == RowResiduals(above, row, xs)[x]
  {
    ResidualIs(above, row, x, xs);
    NeighboursAreSamples(above, row, xs, x);
    PredictIsClampedGradient(Left(above, row[..x]), Top(above, row[..x]), TopLeft(above, row[..x]));
    hide Predict, ClampedGradient, PackSigned, ToInt16;
  }

  lemma NeighboursAreSamples(above: Row, row: Row, xs: nat, x: nat)
    requires IsAbove(above, xs) && IsRow(row, xs) && x < xs && Fits(above, row[..x])
    ensures IsSample(Left(above, row[..x])) && IsSample(Top(above, row[..x])) && IsSample(TopLeft(above, row[..x]))
  {
  }

  /** Every symbol that the channel needs has a codeword. */
  ghost predicate Covers(code: PrefixTables, residuals: seq<nat>)
    requires code.Valid()
  {
    forall k | 0 <= k < |residuals| :: code.HasRaw(residuals[k])
  }

  ghost predicate CoversRuns(code: PrefixTables)
    requires code.Valid()
  {
    forall n: nat | n % 16 == 0 && n <= MAX_SIDE * MAX_SIDE :: code.HasRun(n)
  }

  lemma RunCovered(p: ChannelRowProcessor)
    requires p.Valid() && p.code.Valid() && CoversRuns(p.code) && p.run <= MAX_SIDE * MAX_SIDE
    ensures p.code.HasRun(p.run)
  {
    hide PrefixTables.HasRun, PrefixTables.Valid;
  }

  /** The loop of `ProcessChunk`: sixteen residuals from the two rows. */
  method ChunkResiduals(cur: Buffer, prev: Buffer, first: bool, x: nat, xs: nat, ghost above: Row, ghost row: Row)
    returns (residuals: seq<nat>)
    requires IsWindow(cur, prev, above, row, xs) && first == (above == []) && x + CHUNK_SIZE <= xs
    requires IsAbove(above, xs) && IsRow(row, xs)
    ensures residuals == RowResiduals(above, row, xs)[x..x + CHUNK_SIZE]
  {
    ghost var expected := RowResiduals(above, row, xs);
    residuals := [];
    hide RowResiduals, IsRow, ResidualOf;
    for ix := 0 to CHUNK_SIZE
      invariant residuals == expected[x..x + ix]
    {
      SampleMatches(cur, prev, first, x + ix, above, row, xs);
      hide IsWindow, IsAbove, SampleResidual;
      residuals := residuals + [SampleResidual(cur, prev, first, PADDING + x + ix)];
      assert expected[x..x + ix + 1] == expected[x..x + ix] + [expected[x + ix]];
    }
  }

  function SampleResidual(cur: Buffer, prev: Buffer, first: bool, at: nat): nat
    requires PADDING <= at < |cur| && at < |prev|
  {
    var left := cur[at - 1];
    ResidualOf(cur[at], left, if first then left else prev[at], if first then left else prev[at - 1])
  }

  lemma SampleMatches(cur: Buffer, prev: Buffer, first: bool, x: nat, above: Row, row: Row, xs: nat)
    requires IsWindow(cur, prev, above, row, xs) && first == (above == []) && x < xs
    requires IsAbove(above, xs) && IsRow(row, xs)
    ensures PADDING + x < |cur| && PADDING + x < |prev|
    ensures SampleResidual(cur, prev, first, PADDING + x) == RowResiduals(above, row, xs)[x]
  {
    WindowAt(cur, prev, above, row, xs, x);
    ResidualMatches(above, row, xs, x);
    hide Left, Top, TopLeft, ResidualOf, RowResiduals, IsRow;
  }

  /** `ProcessChunk`. */
  method ProcessChunk(p: ChannelRowProcessor, cur: Buffer, prev: Buffer, first: bool, x: nat, xs: nat,
                      ghost above: Row, ghost row: Row)
    requires p.Valid() && IsWindow(cur, prev, above, row, xs) && first == (above == []) && x + CHUNK_SIZE <= xs
    requires IsAbove(above, xs) && IsRow(row, xs)
    requires p.code.Valid() && p.code.HasRun(p.run) && Covers(p.code, RowResiduals(above, row, xs))
    modifies p, p.output
    ensures p.Valid() && p.residuals == old(p.residuals) + RowResiduals(above, row, xs)[x..x + CHUNK_SIZE]
    ensures p.run <= old(p.run) + CHUNK_SIZE && p.last == RowResiduals(above, row, xs)[x + CHUNK_SIZE - 1]
  {
    var residuals := ChunkResiduals(cur, prev, first, x, xs, above, row);
    hide RowResiduals, ChannelRowProcessor.Valid, PrefixTables.HasRaw, PrefixTables.HasRun, PrefixTables.Valid, IsRow,
         IsWindow, IsAbove, Covers;
    CoversPart(p.code, RowResiduals(above, row, xs), x, x + CHUNK_SIZE);
    p.ProcessResiduals(residuals);
  }

  lemma CoversPart(code: PrefixTables, residuals: seq<nat>, from: nat, to: nat)
    requires code.Valid() && Covers(code, residuals) && from <= to <= |residuals|
    ensures forall k | 0 <= k < to - from :: code.HasRaw(residuals[from..to][k])
  {
    hide PrefixTables.HasRaw, PrefixTables.Valid;
  }

  predicate WholeChunks(x: nat) {
    x % CHUNK_SIZE == 0
  }

  function NextChunk(x: nat): (r: nat)
    ensures r == x + CHUNK_SIZE && (WholeChunks(x) ==> WholeChunks(r))
  {
    x + CHUNK_SIZE
  }

  lemma LastChunk(x: nat, xs: nat)
    requires WholeChunks(x) && WholeChunks(xs) && x <= xs < x + CHUNK_SIZE
    ensures x == xs
  {
  }

  lemma AppendPart(before: seq<nat>, s: seq<nat>, from: nat, to: nat)
    requires from <= to <= |s|
    ensures before + s[..from] + s[from..to] == before + s[..to]
  {
    assert s[..to] == s[..from] + s[from..to];
  }

  /** `ProcessRow`. */
  method ProcessRow(p: ChannelRowProcessor, cur: Buffer, prev: Buffer, first: bool, xs: nat,
                    ghost above: Row, ghost row: Row)
    requires p.Valid() && IsWindow(cur, prev, above, row, xs) && first == (above == []) && WholeChunks(xs)
    requires IsAbove(above, xs) && IsRow(row, xs)
    requires p.code.Valid() && CoversRuns(p.code) && Covers(p.code, RowResiduals(above, row, xs))
    requires p.run + xs <= MAX_SIDE * MAX_SIDE
    modifies p, p.output
    ensures p.Valid() && p.residuals == old(p.residuals) + RowResiduals(above, row, xs)
    ensures p.run <= old(p.run) + xs && p.last == RowResiduals(above, row, xs)[xs - 1]
  {
    ghost var expected := RowResiduals(above, row, xs);
    assert 0 < xs <= MAX_SIDE;
    assert WholeChunks(0);
    var x: nat := 0;
    hide RowResiduals, WholeChunks, IsWindow, Covers, CoversRuns, IsRow, IsAbove, PrefixTables.HasRun,
         PrefixTables.Valid,
         ChannelRowProcessor.Valid;
    while x + CHUNK_SIZE <= xs
      invariant WholeChunks(x) && x <= xs && p.Valid() && p.run <= old(p.run) + x
      invariant p.residuals == old(p.residuals) + expected[..x]
      invariant x > 0 ==> p.last == expected[x - 1]
    {
      RunCovered(p);
      AppendPart(old(p.residuals), expected, x, x + CHUNK_SIZE);
      ProcessChunk(p, cur, prev, first, x, xs, above, row);
      x := NextChunk(x);
    }
    LastChunk(x, xs);
    assert expected[..xs] == expected;
  }

  // ----- one channel -----

  /** Copies the visible samples into the buffer and accumulates them. */
  method FillVisible(buf0: Buffer, row: Row, allzero0: nat, allone0: nat)
    returns (buf: Buffer, allzero: nat, allone: nat)
    requires PADDING + |row| <= |buf0|
    ensures |buf| == |buf0| && buf[PADDING..PADDING + |row|] == row && buf[..PADDING] == buf0[..PADDING]
    ensures allzero == OrRow(allzero0, row) && allone == AndRow(allone0, row)
  {
    buf, allzero, allone := buf0, allzero0, allone0;
    hide Or16, And16, ToUint16;
    for x := 0 to |row|
      invariant |buf| == |buf0| && (forall k | 0 <= k < x :: buf[PADDING + k] == row[k])
      invariant buf[..PADDING] == buf0[..PADDING]
      invariant allzero == OrRow(allzero0, row[..x]) && allone == AndRow(allone0, row[..x])
    {
      assert row[..x + 1][..x] == row[..x];
      buf := Updated(buf, x + PADDING, row[x]);
      allzero := Or16(allzero, ToUint16(buf[x + PADDING]));
      allone := And16(allone, ToUint16(buf[x + PADDING]));
    }
    assert row[..|row|] == row;
  }

  /** Repeats the last visible sample. */
  method FillPadding(buf0: Buffer, row: Row, xs: nat) returns (buf: Buffer)
    requires 0 < |row| <= xs && PADDING + xs <= |buf0| && buf0[PADDING..PADDING + |row|] == row
    ensures |buf| == |buf0| && buf[PADDING..PADDING + xs] == PadRow(row, xs) && buf[..PADDING] == buf0[..PADDING]
  {
    buf := buf0;
    assert PadRow(row, |row|) == row;
    for x := |row| to xs
      invariant |buf| == |buf0| && buf[..PADDING] == buf0[..PADDING] && buf[PADDING..PADDING + x] == PadRow(row, x)
    {
      assert buf[PADDING + |row| - 1] == buf[PADDING..PADDING + x][|row| - 1] == PadRow(row, x)[..|row|][|row| - 1];
      assert PadRow(row, x + 1) == PadRow(row, x) + [row[|row| - 1]];
      ghost var before := buf;
      buf := Updated(buf, PADDING + x, buf[PADDING + |row| - 1]);
      assert buf[PADDING..PADDING + x + 1] == before[PADDING..PADDING + x] + [buf[PADDING + x]];
    }
  }

  /** Both buffers before row `y` is filled in. */
  ghost predicate AreBuffers(cur: Buffer, prev: Buffer, above: Row, xs: nat) {
    && |cur| == |prev| == MAX_SIDE + 2 * PADDING && 0 < xs <= MAX_SIDE
    && (above != [] ==> |above| == xs && prev[PADDING..PADDING + xs] == above)
  }

  /** Fills the buffer of one row and patches the borders. */
  method PrepareRow(cur0: Buffer, prev0: Buffer, row: Row, xs: nat, first: bool, allzero0: nat, allone0: nat,
                    ghost above: Row)
    returns (cur: Buffer, prev: Buffer, allzero: nat, allone: nat)
    requires AreBuffers(cur0, prev0, above, xs) && first == (above == []) && 0 < |row| <= xs
    ensures IsWindow(cur, prev, above, PadRow(row, xs), xs)
    ensures allzero == OrRow(allzero0, row) && allone == AndRow(allone0, row)
  {
    cur, allzero, allone := FillVisible(cur0, row, allzero0, allone0);
    ghost var filled := cur;
    cur := Updated(cur, PADDING - 1, if first then 0 else prev0[PADDING]);
    prev := Updated(prev0, PADDING - 1, if first then 0 else prev0[PADDING]);
    assert cur[PADDING..PADDING + |row|] == filled[PADDING..PADDING + |row|];
    assert prev[PADDING..PADDING + xs] == prev0[PADDING..PADDING + xs];
    assert above != [] ==> above[0] == prev0[PADDING..PADDING + xs][0] == prev0[PADDING];
    ghost var patched := cur;
    cur := FillPadding(cur, row, xs);
    assert cur[PADDING - 1] == cur[..PADDING][PADDING - 1] == patched[..PADDING][PADDING - 1];
  }

  ghost function EmittedUpTo(rows: seq<Row>, oxs: nat, xs: nat, byteDepth1: bool, n: nat): seq<nat>
    requires oxs <= xs && IsPlane(rows, oxs) && n <= |rows|
  {
    if n == 0 then []
    else EmittedUpTo(rows, oxs, xs, byteDepth1, n - 1) + Emitted(rows, oxs, xs, byteDepth1, n - 1)
  }

  /** All residuals of the channel have codewords. */
  ghost predicate CoversPlane(code: PrefixTables, rows: seq<Row>, oxs: nat, xs: nat)
    requires code.Valid() && oxs <= xs && IsPlane(rows, oxs)
  {
    PadIsPlane(rows, oxs, xs);
    forall y | 0 <= y < |rows| :: Covers(code, PlaneRowResiduals(Pad(rows, oxs, xs), y, xs))
  }

  lemma LastIsCovered(code: PrefixTables, residuals: seq<nat>)
    requires code.Valid() && Covers(code, residuals) && residuals != []
    ensures residuals[|residuals| - 1] < 0xFFFF
  {
    assert code.HasRaw(residuals[|residuals| - 1]);
  }

  /** The last residual before row `y`. */
  ghost predicate LastIs(last: nat, rows: seq<Row>, oxs: nat, xs: nat, byteDepth1: bool, y: nat)
    requires oxs <= xs && IsPlane(rows, oxs) && y <= |rows|
  {
    y > 0 ==> last == Emitted(rows, oxs, xs, byteDepth1, y - 1)[xs - 1] && last < 0xFFFF
  }

  /** The shortcut: the row is added to the run. */
  method EmitSkipped(p: ChannelRowProcessor, xs: nat, ghost y: nat, ghost oxs: nat, ghost rows: seq<Row>,
                     ghost byteDepth1: bool)
    requires p.Valid() && oxs <= xs && IsPlane(rows, oxs) && y < |rows| && Skips(rows, y, byteDepth1)
    requires LastIs(p.last, rows, oxs, xs, byteDepth1, y) && WholeChunks(xs)
    modifies p
    ensures p.Valid() && p.residuals == old(p.residuals) + Emitted(rows, oxs, xs, byteDepth1, y)
    ensures p.run <= old(p.run) + xs && LastIs(p.last, rows, oxs, xs, byteDepth1, y + 1)
  {
    assert Emitted(rows, oxs, xs, byteDepth1, y) == Copies(p.last, xs);
    hide Emitted, ChannelRowProcessor.Valid, Skips, IsPlane;
    p.AddRun(xs);
  }

  lemma ProcessedRow(code: PrefixTables, y: nat, oxs: nat, xs: nat, rows: seq<Row>, byteDepth1: bool)
    requires code.Valid() && oxs <= xs && IsPlane(rows, oxs) && y < |rows| && !Skips(rows, y, byteDepth1)
    requires CoversPlane(code, rows, oxs, xs)
    ensures var padded := Pad(rows, oxs, xs);
            IsAbove(Above(padded[..y]), xs) && IsRow(padded[y], xs) && (y == 0 <==> Above(padded[..y]) == []) &&
            Emitted(rows, oxs, xs, byteDepth1, y) == RowResiduals(Above(padded[..y]), padded[y], xs) &&
            Covers(code, RowResiduals(Above(padded[..y]), padded[y], xs)) &&
            Emitted(rows, oxs, xs, byteDepth1, y)[xs - 1] < 0xFFFF
  {
    var padded := Pad(rows, oxs, xs);
    PadIsPlane(rows, oxs, xs);
    AboveIsAbove(padded, y, xs);
    assert IsRow(padded[y], xs) && Covers(code, PlaneRowResiduals(padded, y, xs));
    hide Covers, RowResiduals, Pad;
    assert y > 0 ==> Above(padded[..y]) == padded[y - 1] && IsRow(padded[y - 1], xs);
    LastIsCovered(code, PlaneRowResiduals(padded, y, xs));
  }

  method EmitProcessed(p: ChannelRowProcessor, cur: Buffer, prev: Buffer, y: nat, oxs: nat, xs: nat,
                       ghost rows: seq<Row>, ghost byteDepth1: bool)
    requires p.Valid() && p.code.Valid() && CoversRuns(p.code) && oxs <= xs && IsPlane(rows, oxs) && y < |rows|
    requires CoversPlane(p.code, rows, oxs, xs) && !Skips(rows, y, byteDepth1) && WholeChunks(xs)
    requires IsWindow(cur, prev, Above(Pad(rows, oxs, xs)[..y]), Pad(rows, oxs, xs)[y], xs)
    requires p.run + xs <= MAX_SIDE * MAX_SIDE
    modifies p, p.output
    ensures p.Valid() && p.residuals == old(p.residuals) + Emitted(rows, oxs, xs, byteDepth1, y)
    ensures p.run <= old(p.run) + xs && LastIs(p.last, rows, oxs, xs, byteDepth1, y + 1)
  {
    ghost var padded := Pad(rows, oxs, xs);
    ProcessedRow(p.code, y, oxs, xs, rows, byteDepth1);
    hide Emitted, Pad, ChannelRowProcessor.Valid, IsRow, RowResiduals, CoversRuns, Covers, IsWindow, PrefixTables.Valid,
         PrefixTables.HasRun, Skips, IsPlane, CoversPlane, Above, IsAbove;
    ProcessRow(p, cur, prev, y == 0, xs, Above(padded[..y]), padded[y]);
  }

  /** Both accumulators after the first `n` rows. */
  ghost predicate Accumulated(rows: seq<Row>, n: nat, allzero: nat, allone: nat) {
    n <= |rows| && allzero == OrRows(rows[..n]) && allone == AndRows(rows[..n])
  }

  lemma AccumulatedNext(rows: seq<Row>, n: nat, allzero: nat, allone: nat)
    requires Accumulated(rows, n, allzero, allone) && n < |rows|
    ensures Accumulated(rows, n + 1, OrRow(allzero, rows[n]), AndRow(allone, rows[n]))
  {
    assert rows[..n + 1][..n] == rows[..n];
    hide OrRow, AndRow;
  }

  /** The two buffers, of which number `y % 2` is filled next and the other one holds row `y - 1`. */
  ghost predicate AreRows(groupData: seq<Buffer>, padded: seq<Row>, y: nat, xs: nat) {
    |groupData| == 2 && y <= |padded| && AreBuffers(groupData[y % 2], groupData[(y + 1) % 2], Above(padded[..y]), xs)
  }

  function WithRows(groupData: seq<Buffer>, y: nat, cur: Buffer, prev: Buffer): seq<Buffer>
    requires |groupData| == 2
  {
    groupData[y % 2 := cur][(y + 1) % 2 := prev]
  }

  lemma RowsNext(groupData: seq<Buffer>, padded: seq<Row>, y: nat, xs: nat, cur: Buffer, prev: Buffer)
    requires y < |padded| && |padded[y]| == xs && |groupData| == 2
    requires IsWindow(cur, prev, Above(padded[..y]), padded[y], xs)
    ensures AreRows(WithRows(groupData, y, cur, prev), padded, y + 1, xs)
  {
    assert (y + 2) % 2 == y % 2;
    assert padded[..y + 1][y] == padded[y];
  }

  /** One row: buffers, accumulators, and then either the shortcut or `ProcessRow`. */
  method ProcessOneRow(p: ChannelRowProcessor, groupData0: seq<Buffer>, allzero0: nat, allone0: nat,
                       rows: seq<Row>, y: nat, oxs: nat, xs: nat, byteDepth1: bool, ghost padded: seq<Row>)
    returns (groupData: seq<Buffer>, allzero: nat, allone: nat)
    requires p.Valid() && p.code.Valid() && CoversRuns(p.code) && WholeChunks(xs)
    requires oxs <= xs <= MAX_SIDE && IsPlane(rows, oxs) && CoversPlane(p.code, rows, oxs, xs) && y < |rows|
    requires padded == Pad(rows, oxs, xs) && AreRows(groupData0, padded, y, xs) &&
             Accumulated(rows, y, allzero0, allone0)
    requires LastIs(p.last, rows, oxs, xs, byteDepth1, y) && p.run + xs <= MAX_SIDE * MAX_SIDE
    modifies p, p.output
    ensures p.Valid() && p.run <= old(p.run) + xs && LastIs(p.last, rows, oxs, xs, byteDepth1, y + 1)
    ensures p.residuals == old(p.residuals) + Emitted(rows, oxs, xs, byteDepth1, y)
    ensures AreRows(groupData, padded, y + 1, xs) && Accumulated(rows, y + 1, allzero, allone)
  {
    PadIsPlane(rows, oxs, xs);
    hide Accumulated, AreRows, Emitted, ChannelRowProcessor.Valid, CoversPlane, CoversRuns, IsPlane, Pad,
         PrefixTables.Valid, Repeats, Skips, IsWindow, WithRows, Above, LastIs;
    var cur, prev;
    cur, prev, allzero, allone := NextRow(groupData0, rows, y, oxs, xs, allzero0, allone0, padded);
    RowsNext(groupData0, padded, y, xs, cur, prev);
    groupData := WithRows(groupData0, y, cur, prev);
    SkipsIff(rows, y, byteDepth1, allzero, allone);
    var skip := y > 0 && (allzero == 0 || (allone == 0xFF && byteDepth1));
    if skip {
      EmitSkipped(p, xs, y, oxs, rows, byteDepth1);
    } else {
      EmitProcessed(p, cur, prev, y, oxs, xs, rows, byteDepth1);
    }
  }

  function EmptyBuffers(): seq<Buffer> {
    seq(2, _ => seq(MAX_SIDE + 2 * PADDING, _ => 0))
  }

  lemma StartState(padded: seq<Row>, rows: seq<Row>, xs: nat)
    requires 0 < xs <= MAX_SIDE
    ensures AreRows(EmptyBuffers(), padded, 0, xs) && Accumulated(rows, 0, 0, 0xFFFF)
  {
  }

  /** The loop over the rows. */
  method ProcessChannel(rows: seq<Row>, oxs: nat, xs: nat, byteDepth1: bool, p: ChannelRowProcessor)
    requires p.Valid() && p.code.Valid() && CoversRuns(p.code) && p.run == 0
    requires oxs <= xs <= MAX_SIDE && WholeChunks(xs) && IsPlane(rows, oxs) && |rows| <= MAX_SIDE
    requires CoversPlane(p.code, rows, oxs, xs)
    modifies p, p.output
    ensures p.Valid() && p.residuals == old(p.residuals) + EmittedUpTo(rows, oxs, xs, byteDepth1, |rows|)
    ensures p.run <= MAX_SIDE * MAX_SIDE
  {
    ghost var padded := Pad(rows, oxs, xs);
    var groupData := EmptyBuffers();
    StartState(padded, rows, xs);
    var allzero, allone := 0, 0xFFFF;
    ghost var start := p.residuals;
    assert LastIs(p.last, rows, oxs, xs, byteDepth1, 0) && start == start + EmittedUpTo(rows, oxs, xs, byteDepth1, 0);
    assert 0 < xs;
    hide Accumulated, AreRows, Emitted, ChannelRowProcessor.Valid, CoversPlane, CoversRuns, IsPlane, Pad,
         PrefixTables.Valid, LastIs, EmittedUpTo, WholeChunks, PrefixTables.HasRun, PrefixTables.HasRaw, Skips,
           EmptyBuffers;
    for y := 0 to |rows|
      invariant p.Valid() && p.run <= MAX_SIDE * y && LastIs(p.last, rows, oxs, xs, byteDepth1, y)
      invariant p.residuals == start + EmittedUpTo(rows, oxs, xs, byteDepth1, y)
      invariant Accumulated(rows, y, allzero, allone) && AreRows(groupData, padded, y, xs)
    {
      groupData, allzero, allone := ProcessOneRow(p, groupData, allzero, allone, rows, y, oxs, xs, byteDepth1, padded);
      EmittedNext(rows, oxs, xs, byteDepth1, y, start);
    }
  }

  lemma SkipsIff(rows: seq<Row>, y: nat, byteDepth1: bool, allzero: nat, allone: nat)
    requires y < |rows| && Accumulated(rows, y + 1, allzero, allone)
    ensures Skips(rows, y, byteDepth1) <==> y > 0 && (allzero == 0 || (allone == 0xFF && byteDepth1))
  {
  }

  lemma EmittedNext(rows: seq<Row>, oxs: nat, xs: nat, byteDepth1: bool, y: nat, start: seq<nat>)
    requires oxs <= xs && IsPlane(rows, oxs) && y < |rows|
    ensures start + EmittedUpTo(rows, oxs, xs, byteDepth1, y) + Emitted(rows, oxs, xs, byteDepth1, y)
         == start + EmittedUpTo(rows, oxs, xs, byteDepth1, y + 1)
  {
    hide Emitted;
  }

  method NextRow(groupData: seq<Buffer>, rows: seq<Row>, y: nat, oxs: nat, xs: nat, allzero0: nat, allone0: nat,
                 ghost padded: seq<Row>)
    returns (cur: Buffer, prev: Buffer, allzero: nat, allone: nat)
    requires oxs <= xs <= MAX_SIDE && IsPlane(rows, oxs) && y < |rows| && padded == Pad(rows, oxs, xs)
    requires AreRows(groupData, padded, y, xs) && Accumulated(rows, y, allzero0, allone0)
    ensures |padded| == |rows| && |padded[y]| == xs && |groupData| == 2
    ensures IsWindow(cur, prev, Above(padded[..y]), padded[y], xs)
    ensures Accumulated(rows, y + 1, allzero, allone)
  {
    assert IsRow(rows[y], oxs);
    assert y > 0 ==> Above(padded[..y]) == padded[y - 1] && |padded[y - 1]| == xs;
    cur, prev, allzero, allone :=
      PrepareRow(groupData[y % 2], groupData[(y + 1) % 2], rows[y], xs, y == 0, allzero0, allone0, Above(padded[..y]));
    AccumulatedNext(rows, y, allzero0, allone0);
  }

  // ----- the round trip of a channel -----

  /** The decoder's rows from the flat list of values. */
  ghost function SplitRows(values: seq<nat>, xs: nat, n: nat): (r: seq<seq<nat>>)
    requires n * xs <= |values|
    ensures |r| == n && forall k | 0 <= k < n :: |r[k]| == xs
  {
    if n == 0 then []
    else
      RowBounds(n, xs);
      SplitRows(values, xs, n - 1) + [values[(n - 1) * xs..n * xs]]
  }

  lemma RowBounds(n: nat, xs: nat)
    requires n > 0
    ensures 0 <= (n - 1) * xs && n * xs == (n - 1) * xs + xs
  {
  }

  lemma {:induction false} SplitEmitted(rows: seq<Row>, oxs: nat, xs: nat, byteDepth1: bool, n: nat, rest: seq<nat>)
    requires oxs <= xs && IsPlane(rows, oxs) && n <= |rows|
    ensures |EmittedUpTo(rows, oxs, xs, byteDepth1, n)| == n * xs
    ensures SplitRows(EmittedUpTo(rows, oxs, xs, byteDepth1, n) + rest, xs, n)
         == AllEmitted(rows, oxs, xs, byteDepth1)[..n]
    decreases n
  {
    hide Emitted;
    if n > 0 {
      var row := Emitted(rows, oxs, xs, byteDepth1, n - 1);
      var before := EmittedUpTo(rows, oxs, xs, byteDepth1, n - 1);
      SplitEmitted(rows, oxs, xs, byteDepth1, n - 1, row + rest);
      RowBounds(n, xs);
      var all := AllEmitted(rows, oxs, xs, byteDepth1);
      assert before + row + rest == before + (row + rest);
      assert (before + row + rest)[(n - 1) * xs..n * xs] == row;
      assert all[..n] == all[..n - 1] + [all[n - 1]];
    }
  }

  lemma NothingBefore(s: seq<nat>)
    ensures [] + s == s && s + [] == s
  {
  }

  /** The residual rows that a decoder reads are the emitted ones. */
  lemma SplitAll(rows: seq<Row>, oxs: nat, xs: nat, byteDepth1: bool)
    requires oxs <= xs && IsPlane(rows, oxs)
    ensures |rows| * xs <= |EmittedUpTo(rows, oxs, xs, byteDepth1, |rows|)|
    ensures SplitRows(EmittedUpTo(rows, oxs, xs, byteDepth1, |rows|), xs, |rows|) ==
            AllEmitted(rows, oxs, xs, byteDepth1)
  {
    SplitEmitted(rows, oxs, xs, byteDepth1, |rows|, []);
    NothingBefore(EmittedUpTo(rows, oxs, xs, byteDepth1, |rows|));
    assert AllEmitted(rows, oxs, xs, byteDepth1)[..|rows|] == AllEmitted(rows, oxs, xs, byteDepth1);
  }

  datatype PlaneRead = PlaneRead(rows: seq<Row>, reader: Reader)

  /** One channel of the decoder, which goes on with the reader as it is. */
  ghost function ReadChannel(lens: seq<nat>, stream: seq<bool>, multiplier: nat, r: Reader, xs: nat, height: nat)
    : (p: PlaneRead)
    requires r.Valid() && multiplier > 0
    ensures p.reader.Valid() && forall y | 0 <= y < |p.rows| :: |p.rows[y]| == xs
  {
    var r' := ReadValues(lens, stream, multiplier, r, height * xs);
    PlaneRead(if |r'.history| < |r.history| + height * xs then []
              else DecodePlane(SplitRows(r'.history[|r.history|..], xs, height), xs), r')
  }

  ghost predicate NonNegative(rows: seq<Row>) {
    forall y, x | 0 <= y < |rows| && 0 <= x < |rows[y]| :: rows[y][x] >= 0
  }

  /** Every skipped row equals the row above, and the first row ends flat. */
  ghost predicate SkipsAreRepeats(rows: seq<Row>, xs: nat, byteDepth1: bool) {
    forall y | 0 <= y < |rows| && Skips(rows, y, byteDepth1) :: Repeats(rows, xs, y)
  }

  /** The shortcut never goes wrong without negative samples. */
  lemma NonNegativeIsSafe(rows: seq<Row>, oxs: nat, xs: nat, byteDepth1: bool)
    requires 2 <= xs && oxs <= xs && IsPlane(rows, oxs) && (byteDepth1 ==> IsBytePlane(rows)) && NonNegative(rows)
    ensures SkipsAreRepeats(rows, xs, byteDepth1)
  {
    hide OrRows, AndRows, Repeats, IsPlane;
    forall y | 0 <= y < |rows| && Skips(rows, y, byteDepth1) ensures Repeats(rows, xs, y) {
      NonNegativeRepeats(rows, oxs, xs, byteDepth1, y);
    }
  }

  /** Wherever the bits are and whatever the reader has read before, it reads a plane, stops at their end
      with no copy left, and the visible columns are the channel exactly if the skipped rows repeat. */
  ghost predicate IsChannelBits(lens: seq<nat>, bits: seq<bool>, rows: seq<Row>, oxs: nat, xs: nat, byteDepth1: bool) {
    oxs <= xs && forall stream, multiplier: nat, r: Reader
      | r.count == 0 && multiplier > 0 && HoldsAt(stream, r.pos, bits) ::
      var p := ReadChannel(lens, stream, multiplier, r, xs, |rows|);
      && p.reader.count == 0 && p.reader.pos == r.pos + |bits| && |p.rows| == |rows|
      && (Crop(p.rows, oxs) == rows <==> SkipsAreRepeats(rows, xs, byteDepth1))
  }

  lemma EmittedReadBack(lens: seq<nat>, bits: seq<bool>, rows: seq<Row>, oxs: nat, xs: nat, byteDepth1: bool,
                        stream: seq<bool>, multiplier: nat, r: Reader)
    requires oxs <= xs && IsPlane(rows, oxs)
    requires ReadsAs(lens, bits, EmittedUpTo(rows, oxs, xs, byteDepth1, |rows|))
    requires r.count == 0 && multiplier > 0 && HoldsAt(stream, r.pos, bits)
    ensures var p := ReadChannel(lens, stream, multiplier, r, xs, |rows|);
            p.reader.count == 0 && p.reader.pos == r.pos + |bits| &&
            p.rows == DecodePlane(AllEmitted(rows, oxs, xs, byteDepth1), xs)
  {
    hide EmittedUpTo, IsPlane, ReadValues, DecodePlane, SplitRows, HoldsAt, AllEmitted;
    var values := EmittedUpTo(rows, oxs, xs, byteDepth1, |rows|);
    SplitEmitted(rows, oxs, xs, byteDepth1, |rows|, []);
    SplitAll(rows, oxs, xs, byteDepth1);
    var r' := ReadValues(lens, stream, multiplier, r, |values|);
    assert r'.history[|r.history|..] == values;
  }

  lemma EmittedIsChannel(lens: seq<nat>, bits: seq<bool>, rows: seq<Row>, oxs: nat, xs: nat, byteDepth1: bool)
    requires 2 <= xs && oxs <= xs && IsPlane(rows, oxs) && (byteDepth1 ==> IsBytePlane(rows))
    requires ReadsAs(lens, bits, EmittedUpTo(rows, oxs, xs, byteDepth1, |rows|))
    ensures IsChannelBits(lens, bits, rows, oxs, xs, byteDepth1)
  {
    hide EmittedUpTo, IsPlane, ReadsAs, ReadChannel, DecodePlane, HoldsAt, AllEmitted, Skips, Repeats, IsBytePlane,
         Crop;
    ReversibleIff(rows, oxs, xs, byteDepth1);
    forall stream, multiplier: nat, r: Reader | r.count == 0 && multiplier > 0 && HoldsAt(stream, r.pos, bits)
      ensures var p := ReadChannel(lens, stream, multiplier, r, xs, |rows|);
              p.reader.count == 0 && p.reader.pos == r.pos + |bits| && |p.rows| == |rows| &&
              (Crop(p.rows, oxs) == rows <==> SkipsAreRepeats(rows, xs, byteDepth1))
    {
      EmittedReadBack(lens, bits, rows, oxs, xs, byteDepth1, stream, multiplier, r);
    }
  }

  /** A channel goes through `WriteACSection`'s row encoder, from the first row to `Finalize`. */
  method EncodeChannel(rows: seq<Row>, oxs: nat, xs: nat, byteDepth1: bool, code: PrefixTables, output: BitWriter)
    returns (ghost bits: seq<bool>)
    requires output.Valid() && code.Valid() && CoversRuns(code)
    requires 2 <= xs && oxs <= xs <= MAX_SIDE && WholeChunks(xs) && IsPlane(rows, oxs) && |rows| <= MAX_SIDE
    requires CoversPlane(code, rows, oxs, xs) && (byteDepth1 ==> IsBytePlane(rows))
    modifies output
    ensures output.Valid() && output.Contents() == old(output.Contents()) + bits
    ensures IsChannelBits(code.Lens(), bits, rows, oxs, xs, byteDepth1)
  {
    var p := new ChannelRowProcessor(code, output);
    assert 0 < oxs;
    hide CoversRuns, CoversPlane, IsPlane, PrefixTables.HasRun, EmittedUpTo, IsChannelBits, ReadsAs, IsBytePlane,
         ChannelRowProcessor.Valid, PrefixTables.Valid, BitWriter.Valid, BitWriter.Contents;
    ProcessChannel(rows, oxs, xs, byteDepth1, p);
    NothingBefore(EmittedUpTo(rows, oxs, xs, byteDepth1, |rows|));
    RunCovered(p);
    p.Finalize();
    bits := p.ReadsBackResiduals();
    FinalizedOutput(p);
    EmittedIsChannel(code.Lens(), bits, rows, oxs, xs, byteDepth1);
  }

  lemma FinalizedOutput(p: ChannelRowProcessor)
    requires p.Valid()
    ensures p.output.Valid() && p.code.Valid()
  {
    hide StreamBits, BitWriter.Contents, BitWriter.Valid;
  }
}
