/** From pixels to channels and back (experimental/fast_lossless/fast_lossless.cc:847-887, 926-955): the
conversion loop of `ProcessImageArea` and the channels that `WriteACSection` encodes.
 */
module ImagePixels {
  import opened Bits
  import opened BitReading
  import opened BitWriting
  import opened CanonicalCode
  import opened Alphabets
  import opened ChunkCoding
  import opened Prediction
  import opened PlaneCoding
  import opened RowShortcut
  import opened ImageArea
  import FrameAssembly
  import opened Sequences

  /** One number per channel: grey, grey with alpha, RGB or RGB with alpha. */
  type Samples = seq<int>

  type Image = seq<seq<Samples>>

  ghost predicate IsSamples(p: Samples, n: nat, limit: int) {
    |p| == n && forall c | 0 <= c < n :: 0 <= p[c] < limit
  }

  /** Rows of `oxs` pixels with `n` channels below `limit`. */
  ghost predicate IsImage(image: Image, n: nat, oxs: nat, limit: int) {
    0 < n <= 4 && 0 < oxs && 0 < limit <= CHANNEL_LIMIT && (forall y | 0 <= y < |image| :: |image[y]| == oxs) &&
    forall y, x | 0 <= y < |image| && 0 <= x < oxs :: IsSamples(image[y][x], n, limit)
  }

  // ----- one pixel -----

  /** What is stored in the channel buffers for a pixel. */
  function ToChannels(p: Samples): (r: Samples)
    requires 0 < |p| <= 4
    ensures |r| == |p|
  {
    if |p| < 3 then p
    else if |p| == 3 then Listed(ToYCoCg(Pixel(p[0], p[1], p[2])))
    else Listed(WithAlpha(Pixel(p[0], p[1], p[2]), p[3])) + [p[3]]
  }

  function Listed(c: YCoCg): (r: Samples)
    ensures |r| == 3
  {
    [c.y, c.co, c.cg]
  }

  /** The decoder's inverse of the colour transform. */
  function FromChannels(c: Samples): (r: Samples)
    requires 0 < |c| <= 4
    ensures |r| == |c|
  {
    if |c| < 3 then c
    else
      var p := ToPixel(YCoCg(c[0], c[1], c[2]));
      [p.r, p.g, p.b] + c[3..]
  }

  /** What is kept of a pixel: with alpha 0 the colour is not. */
  function Kept(p: Samples): Samples {
    if |p| == 4 && p[3] == 0 then [0, 0, 0, 0] else p
  }

  lemma PixelIsKept(p: Samples, n: nat)
    requires 0 < n <= 4 && IsSamples(p, n, CHANNEL_LIMIT)
    ensures FromChannels(ToChannels(p)) == Kept(p)
  {
    hide ToYCoCg, ToPixel, WithAlpha;
    if n == 3 {
      PixelRoundTrip(Pixel(p[0], p[1], p[2]));
    } else if n == 4 {
      PixelRoundTripAlpha(Pixel(p[0], p[1], p[2]), p[3]);
    }
  }

  /** Luma and alpha stay below the limit, chroma needs a sign. */
  lemma ChannelRange(p: Samples, n: nat, limit: int, c: nat)
    requires 0 < n <= 4 && c < n && 0 < limit <= CHANNEL_LIMIT && IsSamples(p, n, limit)
    ensures -limit < ToChannels(p)[c] < limit
    ensures n < 3 || c == 0 || c == 3 ==> ToChannels(p)[c] >= 0
  {
    if n >= 3 {
      ColourRange(Pixel(p[0], p[1], p[2]), limit);
    }
  }

  lemma ColourRange(p: Pixel, limit: int)
    requires 0 < limit <= CHANNEL_LIMIT && 0 <= p.r < limit && 0 <= p.g < limit && 0 <= p.b < limit
    ensures var c := ToYCoCg(p); 0 <= c.y < limit && -limit < c.co < limit && -limit < c.cg < limit
  {
  }

  // ----- channels of an image -----

  /** Channel `c`, before it is padded. */
  function Channel(image: Image, n: nat, oxs: nat, limit: int, c: nat): (rows: seq<Row>)
    requires IsImage(image, n, oxs, limit) && c < n
    ensures |rows| == |image| && (forall y | 0 <= y < |rows| :: |rows[y]| == oxs)
    ensures forall y, x | 0 <= y < |rows| && 0 <= x < oxs :: rows[y][x] == ChannelOf(image[y][x], c)
  {
    seq(|image|, y requires 0 <= y < |image| => seq(oxs, x requires 0 <= x < oxs => ChannelOf(image[y][x], c)))
  }

  function ChannelOf(p: Samples, c: nat): int {
    if c < |p| <= 4 then ToChannels(p)[c] else 0
  }

  lemma ChannelIsPlane(image: Image, n: nat, oxs: nat, limit: int, c: nat)
    requires IsImage(image, n, oxs, limit) && c < n
    ensures IsPlane(Channel(image, n, oxs, limit, c), oxs)
    ensures limit <= 256 ==> IsBytePlane(Channel(image, n, oxs, limit, c))
    ensures n < 3 || c == 0 || c == 3 ==> NonNegative(Channel(image, n, oxs, limit, c))
  {
    hide ToChannels;
    var rows := Channel(image, n, oxs, limit, c);
    forall y, x | 0 <= y < |rows| && 0 <= x < oxs
      ensures -limit < rows[y][x] < limit && (n < 3 || c == 0 || c == 3 ==> rows[y][x] >= 0)
    {
      assert IsSamples(image[y][x], n, limit);
      ChannelRange(image[y][x], n, limit, c);
    }
    forall y | 0 <= y < |rows| ensures IsRow(rows[y], oxs) {
      forall x | 0 <= x < oxs ensures -CHANNEL_LIMIT < rows[y][x] < CHANNEL_LIMIT {
        assert -limit < rows[y][x] < limit;
      }
    }
  }

  /** The pixels of decoded channels, without the padding columns. */
  ghost function Pixels(planes: seq<seq<Row>>, n: nat, oxs: nat, ys: nat): (image: Image)
    requires 0 < n <= 4 && |planes| == n
    requires forall c | 0 <= c < n :: |planes[c]| == ys && forall y | 0 <= y < ys :: oxs <= |planes[c][y]|
  {
    seq(ys, y requires 0 <= y < ys => seq(oxs, x requires 0 <= x < oxs => FromChannels(Column(planes, n, y, x))))
  }

  /** The samples of one position. */
  ghost function Column(planes: seq<seq<Row>>, n: nat, y: nat, x: nat): (p: Samples)
    requires |planes| == n && forall c | 0 <= c < n :: y < |planes[c]| && x < |planes[c][y]|
    ensures |p| == n && forall c | 0 <= c < n :: p[c] == planes[c][y][x]
  {
    seq(n, c requires 0 <= c < n => planes[c][y][x])
  }

  ghost function KeptImage(image: Image): (r: Image)
    ensures |r| == |image| && forall y | 0 <= y < |r| :: |r[y]| == |image[y]|
    ensures forall y, x | 0 <= y < |r| && 0 <= x < |r[y]| :: r[y][x] == Kept(image[y][x])
  {
    seq(|image|, y requires 0 <= y < |image| => seq(|image[y]|, x requires 0 <= x < |image[y]| => Kept(image[y][x])))
  }

  /** The planes give every visible pixel, except colours under alpha 0. */
  ghost predicate Recovers(planes: seq<seq<Row>>, image: Image, n: nat, oxs: nat) {
    && 0 < n <= 4 && |planes| == n
    && (forall c | 0 <= c < n :: |planes[c]| == |image| && forall y | 0 <= y < |image| :: oxs <= |planes[c][y]|)
    && Pixels(planes, n, oxs, |image|) == KeptImage(image)
  }

  /** All planes have the image's height and at least its width. */
  ghost predicate HaveSize(planes: seq<seq<Row>>, n: nat, oxs: nat, ys: nat) {
    |planes| == n && forall c | 0 <= c < n :: |planes[c]| == ys && forall y | 0 <= y < ys :: oxs <= |planes[c][y]|
  }

  /** The visible columns of the planes are the channels of the image. */
  ghost predicate AreChannels(planes: seq<seq<Row>>, image: Image, n: nat, oxs: nat, limit: int)
    requires IsImage(image, n, oxs, limit) && HaveSize(planes, n, oxs, |image|)
  {
    forall c | 0 <= c < n :: Crop(planes[c], oxs) == Channel(image, n, oxs, limit, c)
  }

  lemma ToPixelInjective(a: YCoCg, b: YCoCg)
    requires ToPixel(a) == ToPixel(b)
    ensures a == b
  {
  }

  lemma FromChannelsInjective(a: Samples, b: Samples)
    requires |a| == |b| && 0 < |a| <= 4 && FromChannels(a) == FromChannels(b)
    ensures a == b
  {
    if |a| >= 3 {
      hide ToPixel;
      var u, v := FromChannels(a), FromChannels(b);
      assert u[0] == v[0] && u[1] == v[1] && u[2] == v[2] && u[3..] == a[3..] && v[3..] == b[3..];
      ToPixelInjective(YCoCg(a[0], a[1], a[2]), YCoCg(b[0], b[1], b[2]));
      assert a == [a[0], a[1], a[2]] + a[3..] && b == [b[0], b[1], b[2]] + b[3..];
    }
  }

  /** One pixel is recovered exactly if all its channels are. */
  lemma PixelIff(p: Samples, kept: Samples, n: nat)
    requires 0 < n <= 4 && IsSamples(kept, n, CHANNEL_LIMIT) && |p| == n
    ensures FromChannels(p) == Kept(kept) <==> p == ToChannels(kept)
  {
    PixelIsKept(kept, n);
    hide FromChannels, ToChannels, Kept;
    if FromChannels(p) == Kept(kept) {
      FromChannelsInjective(p, ToChannels(kept));
    }
  }

  lemma ColumnIff(planes: seq<seq<Row>>, image: Image, n: nat, oxs: nat, limit: int, y: nat, x: nat)
    requires IsImage(image, n, oxs, limit) && HaveSize(planes, n, oxs, |image|) && y < |image| && x < oxs
    ensures Pixels(planes, n, oxs, |image|)[y][x] == KeptImage(image)[y][x] <==>
            forall c | 0 <= c < n :: Crop(planes[c], oxs)[y][x] == Channel(image, n, oxs, limit, c)[y][x]
  {
    hide ToChannels, FromChannels, Kept;
    assert IsSamples(image[y][x], n, limit);
    var p := Column(planes, n, y, x);
    PixelIff(p, image[y][x], n);
    forall c: nat | c < n
      ensures Crop(planes[c], oxs)[y][x] == p[c] && Channel(image, n, oxs, limit, c)[y][x] == ToChannels(image[y][x])[c]
    {
    }
  }

  /** All visible pixels are recovered exactly if all visible columns of the channels are. */
  lemma RecoversIff(planes: seq<seq<Row>>, image: Image, n: nat, oxs: nat, limit: int)
    requires IsImage(image, n, oxs, limit) && HaveSize(planes, n, oxs, |image|)
    ensures Recovers(planes, image, n, oxs) <==> AreChannels(planes, image, n, oxs, limit)
  {
    forall y: nat, x: nat | y < |image| && x < oxs
      ensures Pixels(planes, n, oxs, |image|)[y][x] == KeptImage(image)[y][x] <==>
              forall c | 0 <= c < n :: Crop(planes[c], oxs)[y][x] == Channel(image, n, oxs, limit, c)[y][x]
    {
      ColumnIff(planes, image, n, oxs, limit, y, x);
    }
    hide FromChannels, Kept, ChannelOf;
    if AreChannels(planes, image, n, oxs, limit) {
      var out := Pixels(planes, n, oxs, |image|);
      assert forall y | 0 <= y < |image| :: out[y] == KeptImage(image)[y];
    }
    if Recovers(planes, image, n, oxs) {
      forall c: nat | c < n ensures Crop(planes[c], oxs) == Channel(image, n, oxs, limit, c) {
        assert forall y | 0 <= y < |image| :: Crop(planes[c], oxs)[y] == Channel(image, n, oxs, limit, c)[y];
      }
    }
  }

  // ----- the section -----

  /** The padded width. */
  function RoundedUp(oxs: nat): (xs: nat)
    ensures oxs <= xs && WholeChunks(xs) && (oxs <= MAX_SIDE ==> xs <= MAX_SIDE) && (oxs > 0 ==> xs >= 16)
  {
    (oxs + CHUNK_SIZE - 1) / CHUNK_SIZE * CHUNK_SIZE
  }

  ghost predicate CoversImage(code: PrefixTables, image: Image, n: nat, oxs: nat, limit: int)
    requires code.Valid() && IsImage(image, n, oxs, limit)
  {
    forall c: nat | c < n ::
      (ChannelIsPlane(image, n, oxs, limit, c); CoversPlane(code, Channel(image, n, oxs, limit, c), oxs,
        RoundedUp(oxs)))
  }

  /** The bits of channel `c`. */
  ghost predicate AreBitsOf(lens: seq<nat>, bits: seq<bool>, image: Image, n: nat, oxs: nat, limit: int,
                            byteDepth1: bool,
                            c: nat)
    requires IsImage(image, n, oxs, limit) && c < n
  {
    IsChannelBits(lens, bits, Channel(image, n, oxs, limit, c), oxs, RoundedUp(oxs), byteDepth1)
  }

  method WriteChannel(image: Image, n: nat, oxs: nat, limit: int, byteDepth1: bool, c: nat, code: PrefixTables,
                      output: BitWriter)
    returns (ghost bits: seq<bool>)
    requires IsImage(image, n, oxs, limit) && oxs <= MAX_SIDE && |image| <= MAX_SIDE && (byteDepth1 ==> limit <= 256)
    requires code.Valid() && CoversRuns(code) && CoversImage(code, image, n, oxs, limit) && c < n && output.Valid()
    modifies output
    ensures output.Valid() && output.Contents() == old(output.Contents()) + bits
    ensures AreBitsOf(code.Lens(), bits, image, n, oxs, limit, byteDepth1, c)
  {
    ChannelIsPlane(image, n, oxs, limit, c);
    hide CoversRuns, CoversPlane, IsPlane, IsChannelBits, NonNegative, PrefixTables.Valid, BitWriter.Valid,
         BitWriter.Contents, IsBytePlane, RoundedUp, Channel, PrefixTables.Lens;
    bits := EncodeChannel(Channel(image, n, oxs, limit, c), oxs, RoundedUp(oxs), byteDepth1, code, output);
  }

  /** What the four writers hold. */
  ghost predicate Hold(outputs: seq<BitWriter>, contents: seq<seq<bool>>)
    reads outputs
  {
    |outputs| == |contents| == 4 &&
    forall j: nat | j < 4 :: outputs[j].Valid() && outputs[j].Contents() == contents[j]
  }

  ghost predicate AreDistinct(outputs: seq<BitWriter>) {
    |outputs| == 4 && forall j, k | 0 <= j < k < 4 :: outputs[j] != outputs[k]
  }

  /** The bits of the first channels. */
  ghost predicate AreChannelBits(lens: seq<nat>, bits: seq<seq<bool>>, image: Image, n: nat, oxs: nat, limit: int,
                                 byteDepth1: bool)
    requires IsImage(image, n, oxs, limit)
  {
    |bits| <= n && forall c: nat | c < |bits| :: AreBitsOf(lens, bits[c], image, n, oxs, limit, byteDepth1, c)
  }

  /** The first writers have each received one of the bit strings, the others nothing. */
  ghost predicate Appended(before: seq<seq<bool>>, bits: seq<seq<bool>>, contents: seq<seq<bool>>) {
    |before| == |contents| == 4 && |bits| <= 4 &&
    forall j: nat | j < 4 :: contents[j] == before[j] + if j < |bits| then bits[j] else []
  }

  lemma BitsNext(lens: seq<nat>, bits: seq<seq<bool>>, next: seq<bool>, image: Image, n: nat, oxs: nat, limit: int,
                 byteDepth1: bool, c: nat)
    requires IsImage(image, n, oxs, limit) && AreChannelBits(lens, bits, image, n, oxs, limit, byteDepth1)
    requires |bits| == c < n && AreBitsOf(lens, next, image, n, oxs, limit, byteDepth1, c)
    ensures AreChannelBits(lens, bits + [next], image, n, oxs, limit, byteDepth1)
  {
    hide AreBitsOf, IsImage;
  }

  lemma AppendedNext(before: seq<seq<bool>>, bits: seq<seq<bool>>, contents: seq<seq<bool>>, next: seq<bool>, c: nat)
    requires Appended(before, bits, contents) && |bits| == c < 4
    ensures |contents| == 4 && Appended(before, bits + [next], Updated(contents, c, contents[c] + next))
  {
  }

  lemma NothingAppended(before: seq<seq<bool>>)
    requires |before| == 4
    ensures Appended(before, [], before)
  {
  }

  method WriteOne(image: Image, n: nat, oxs: nat, limit: int, byteDepth1: bool, c: nat, code: PrefixTables,
                  outputs: seq<BitWriter>, ghost contents: seq<seq<bool>>) returns (ghost bits: seq<bool>)
    requires IsImage(image, n, oxs, limit) && oxs <= MAX_SIDE && |image| <= MAX_SIDE && (byteDepth1 ==> limit <= 256)
    requires code.Valid() && CoversRuns(code) && CoversImage(code, image, n, oxs, limit) && c < n && c < 4
    requires AreDistinct(outputs) && Hold(outputs, contents)
    modifies outputs
    ensures Hold(outputs, Updated(contents, c, contents[c] + bits))
    ensures AreBitsOf(code.Lens(), bits, image, n, oxs, limit, byteDepth1, c)
  {
    hide CoversRuns, CoversImage, AreBitsOf, PrefixTables.Valid, PrefixTables.Lens, BitWriter.Valid, BitWriter.Contents,
         IsImage;
    bits := WriteChannel(image, n, oxs, limit, byteDepth1, c, code, outputs[c]);
  }

  /** The group header of `WriteACSection`: global tree, default predictors, no transforms. A single group
      has none. */
  function GroupHeaderBits(isSingleGroup: bool): seq<bool> {
    if isSingleGroup then [] else FromNat(1, 1) + FromNat(1, 1) + FromNat(0, 2)
  }

  /** The first writer holds more. */
  function WithFirst(contents: seq<seq<bool>>, more: seq<bool>): (r: seq<seq<bool>>)
    requires |contents| == 4
    ensures |r| == 4
  {
    Updated(contents, 0, contents[0] + more)
  }

  /** `WriteACSection`: each channel goes to its own writer, the first one behind the group header. */
  method WriteACSection(image: Image, n: nat, oxs: nat, limit: int, byteDepth1: bool, isSingleGroup: bool,
                        code: PrefixTables, outputs: seq<BitWriter>, ghost before: seq<seq<bool>>)
    returns (ghost contents: seq<seq<bool>>, ghost bits: seq<seq<bool>>)
    requires IsImage(image, n, oxs, limit) && oxs <= MAX_SIDE && |image| <= MAX_SIDE && (byteDepth1 ==> limit <= 256)
    requires code.Valid() && CoversRuns(code) && CoversImage(code, image, n, oxs, limit)
    requires AreDistinct(outputs) && Hold(outputs, before)
    modifies outputs
    ensures Hold(outputs, contents) && |before| == 4 && |bits| == n
    ensures Appended(WithFirst(before, GroupHeaderBits(isSingleGroup)), bits, contents)
    ensures AreChannelBits(code.Lens(), bits, image, n, oxs, limit, byteDepth1)
  {
    assert 0 < n <= 4;
    GroupHeader(isSingleGroup, outputs, before);
    ghost var start := WithFirst(before, GroupHeaderBits(isSingleGroup));
    contents, bits := start, [];
    NothingAppended(start);
    assert AreChannelBits(code.Lens(), [], image, n, oxs, limit, byteDepth1);
    hide *;
    for c := 0 to n
      invariant Hold(outputs, contents) && |bits| == c && Appended(start, bits, contents)
      invariant AreChannelBits(code.Lens(), bits, image, n, oxs, limit, byteDepth1)
    {
      AppendedNext(start, bits, contents, [], c);
      ghost var next := WriteOne(image, n, oxs, limit, byteDepth1, c, code, outputs, contents);
      BitsNext(code.Lens(), bits, next, image, n, oxs, limit, byteDepth1, c);
      AppendedNext(start, bits, contents, next, c);
      bits, contents := bits + [next], Updated(contents, c, contents[c] + next);
    }
  }

  method GroupHeader(isSingleGroup: bool, outputs: seq<BitWriter>, ghost before: seq<seq<bool>>)
    requires AreDistinct(outputs) && Hold(outputs, before)
    modifies outputs
    ensures |before| == 4 && Hold(outputs, WithFirst(before, GroupHeaderBits(isSingleGroup)))
  {
    hide BitWriter.Valid, BitWriter.Contents, FromNat;
    if isSingleGroup {
      assert before[0] + [] == before[0];
    } else {
      WriteGroupHeader(outputs[0]);
    }
  }

  method WriteGroupHeader(output: BitWriter)
    requires output.Valid()
    modifies output
    ensures output.Valid() && output.Contents() == old(output.Contents()) + GroupHeaderBits(false)
  {
    hide BitWriter.Valid, BitWriter.Contents, FromNat, Pow2;
    SmallPowers();
    output.Write(1, 1);
    output.Write(1, 1);
    output.Write(2, 0);
  }

  lemma SmallPowers()
    ensures 1 < Pow2(1) && 1 < Pow2(2) && 0 < Pow2(5)
  {
    Pow2Small();
  }

  // ----- what a decoder gets -----

  datatype GroupRead = GroupRead(planes: seq<seq<Row>>, reader: Reader)

  /** One reader for all channels of the group, as in `ModularDecode`. */
  ghost function ReadChannels(lens: seq<nat>, stream: seq<bool>, multiplier: nat, r: Reader, n: nat, xs: nat, ys: nat)
    : (g: GroupRead)
    requires r.Valid() && multiplier > 0
    ensures |g.planes| == n && g.reader.Valid()
    ensures forall c, y | 0 <= c < n && 0 <= y < |g.planes[c]| :: |g.planes[c][y]| == xs
  {
    if n == 0 then GroupRead([], r)
    else
      var before := ReadChannels(lens, stream, multiplier, r, n - 1, xs, ys);
      var next := ReadChannel(lens, stream, multiplier, before.reader, xs, ys);
      GroupRead(before.planes + [next.rows], next.reader)
  }

  /** The shortcut adds only rows that repeat what `ProcessRow` would add. */
  ghost predicate ShortcutIsSafe(image: Image, n: nat, oxs: nat, limit: int, byteDepth1: bool, c: nat)
    requires IsImage(image, n, oxs, limit) && c < n
  {
    SkipsAreRepeats(Channel(image, n, oxs, limit, c), RoundedUp(oxs), byteDepth1)
  }

  /** It always is in luma, grey and alpha channels. */
  lemma OnlyChromaMatters(image: Image, n: nat, oxs: nat, limit: int, byteDepth1: bool, c: nat)
    requires IsImage(image, n, oxs, limit) && c < n && (byteDepth1 ==> limit <= 256)
    requires n < 3 || c == 0 || c == 3
    ensures ShortcutIsSafe(image, n, oxs, limit, byteDepth1, c)
  {
    hide SkipsAreRepeats, IsPlane, NonNegative, IsBytePlane, RoundedUp, Channel;
    ChannelIsPlane(image, n, oxs, limit, c);
    assert oxs > 0;
    NonNegativeIsSafe(Channel(image, n, oxs, limit, c), oxs, RoundedUp(oxs), byteDepth1);
  }

  /** Channel `c` is read from its own bits. */
  ghost predicate IsReadIff(plane: seq<Row>, image: Image, n: nat, oxs: nat, limit: int, byteDepth1: bool, c: nat)
    requires IsImage(image, n, oxs, limit) && c < n
  {
    && |plane| == |image| && (forall y | 0 <= y < |plane| :: oxs <= |plane[y]|)
    && (Crop(plane, oxs) == Channel(image, n, oxs, limit, c) <==> ShortcutIsSafe(image, n, oxs, limit, byteDepth1, c))
  }

  lemma ChannelReadsBack(lens: seq<nat>, bits: seq<bool>, image: Image, n: nat, oxs: nat, limit: int, byteDepth1: bool,
                         c: nat, stream: seq<bool>, multiplier: nat, r: Reader)
    requires IsImage(image, n, oxs, limit) && c < n && AreBitsOf(lens, bits, image, n, oxs, limit, byteDepth1, c)
    requires r.count == 0 && multiplier > 0 && HoldsAt(stream, r.pos, bits)
    ensures var p := ReadChannel(lens, stream, multiplier, r, RoundedUp(oxs), |image|);
            p.reader.count == 0 && p.reader.pos == r.pos + |bits| &&
            IsReadIff(p.rows, image, n, oxs, limit, byteDepth1, c)
  {
    hide Channel, RoundedUp, ReadChannel, HoldsAt, SkipsAreRepeats, IsImage, Crop;
  }

  /** Every channel of the group, in turn. */
  lemma {:induction false} ChannelsReadBack(lens: seq<nat>, bits: seq<seq<bool>>, image: Image, n: nat, oxs: nat,
                                            limit: int, byteDepth1: bool, stream: seq<bool>, multiplier: nat, r: Reader)
    requires IsImage(image, n, oxs, limit) && AreChannelBits(lens, bits, image, n, oxs, limit, byteDepth1)
    requires r.count == 0 && multiplier > 0 && HoldsAt(stream, r.pos, FrameAssembly.Flatten(bits))
    ensures |bits| <= n
    ensures var g := ReadChannels(lens, stream, multiplier, r, |bits|, RoundedUp(oxs), |image|);
            g.reader.count == 0 && g.reader.pos == r.pos + |FrameAssembly.Flatten(bits)| &&
            forall c: nat | c < |bits| :: IsReadIff(g.planes[c], image, n, oxs, limit, byteDepth1, c)
    decreases |bits|
  {
    hide AreBitsOf, IsImage, RoundedUp, HoldsAt, IsReadIff, ReadChannel, FrameAssembly.Flatten;
    if bits == [] {
      assert FrameAssembly.Flatten(bits) == [] by { FlattenNone(bits); }
    } else {
      var k := |bits| - 1;
      var before, last := bits[..k], bits[k];
      assert bits == before + [last];
      FrameAssembly.FlattenAppend(before, last);
      HoldsAtSplit(stream, r.pos, FrameAssembly.Flatten(before), last);
      ChannelsReadBack(lens, before, image, n, oxs, limit, byteDepth1, stream, multiplier, r);
      var g := ReadChannels(lens, stream, multiplier, r, k, RoundedUp(oxs), |image|);
      ChannelReadsBack(lens, last, image, n, oxs, limit, byteDepth1, k, stream, multiplier, g.reader);
    }
  }

  lemma FlattenNone(bits: seq<seq<bool>>)
    requires bits == []
    ensures FrameAssembly.Flatten(bits) == []
  {
  }

  /** The round trip of a section: reading all channels with one reader stops at the end of their bits,
      and every visible pixel is recovered, but for colours under alpha 0, if and only if there is no
      colour or the shortcut is safe in both chroma channels. */
  lemma SectionReadsBack(lens: seq<nat>, bits: seq<seq<bool>>, image: Image, n: nat, oxs: nat, limit: int,
                         byteDepth1: bool, stream: seq<bool>, multiplier: nat, r: Reader)
    requires IsImage(image, n, oxs, limit) && AreChannelBits(lens, bits, image, n, oxs, limit, byteDepth1)
    requires |bits| == n && (byteDepth1 ==> limit <= 256)
    requires r.count == 0 && multiplier > 0 && HoldsAt(stream, r.pos, FrameAssembly.Flatten(bits))
    ensures var g := ReadChannels(lens, stream, multiplier, r, n, RoundedUp(oxs), |image|);
            g.reader.count == 0 && HaveSize(g.planes, n, oxs, |image|) &&
            g.reader.pos == r.pos + |FrameAssembly.Flatten(bits)| &&
            (Recovers(g.planes, image, n, oxs) <==>
             n < 3 || (ShortcutIsSafe(image, n, oxs, limit, byteDepth1, 1)
                       && ShortcutIsSafe(image, n, oxs, limit, byteDepth1, 2)))
  {
    hide AreChannelBits, IsImage, RoundedUp, HoldsAt, ReadChannels, FrameAssembly.Flatten, ShortcutIsSafe, Recovers,
         IsReadIff, HaveSize;
    ChannelsReadBack(lens, bits, image, n, oxs, limit, byteDepth1, stream, multiplier, r);
    var g := ReadChannels(lens, stream, multiplier, r, n, RoundedUp(oxs), |image|);
    ChromaDecides(g.planes, image, n, oxs, limit, byteDepth1);
  }

  lemma ChromaDecides(planes: seq<seq<Row>>, image: Image, n: nat, oxs: nat, limit: int, byteDepth1: bool)
    requires IsImage(image, n, oxs, limit) && |planes| == n && (byteDepth1 ==> limit <= 256)
    requires forall c: nat | c < n :: IsReadIff(planes[c], image, n, oxs, limit, byteDepth1, c)
    ensures HaveSize(planes, n, oxs, |image|)
    ensures Recovers(planes, image, n, oxs) <==>
            n < 3 || (ShortcutIsSafe(image, n, oxs, limit, byteDepth1, 1)
                      && ShortcutIsSafe(image, n, oxs, limit, byteDepth1, 2))
  {
    hide IsImage, ShortcutIsSafe, Recovers, IsReadIff, AreChannels, HaveSize;
    ChannelCount(image, n, oxs, limit);
    AllSafeIff(planes, image, n, oxs, limit, byteDepth1);
    RecoversIff(planes, image, n, oxs, limit);
    forall c: nat | c < n && (n < 3 || c == 0 || c == 3) ensures ShortcutIsSafe(image, n, oxs, limit, byteDepth1, c) {
      OnlyChromaMatters(image, n, oxs, limit, byteDepth1, c);
    }
  }

  lemma ChannelCount(image: Image, n: nat, oxs: nat, limit: int)
    requires IsImage(image, n, oxs, limit)
    ensures 0 < n <= 4 && oxs > 0
  {
  }

  lemma AllSafeIff(planes: seq<seq<Row>>, image: Image, n: nat, oxs: nat, limit: int, byteDepth1: bool)
    requires IsImage(image, n, oxs, limit) && |planes| == n
    requires forall c: nat | c < n :: IsReadIff(planes[c], image, n, oxs, limit, byteDepth1, c)
    ensures HaveSize(planes, n, oxs, |image|)
    ensures AreChannels(planes, image, n, oxs, limit) <==>
            forall c: nat | c < n :: ShortcutIsSafe(image, n, oxs, limit, byteDepth1, c)
  {
    hide IsImage, ShortcutIsSafe, Channel, Crop;
    if AreChannels(planes, image, n, oxs, limit) {
      forall c: nat | c < n ensures ShortcutIsSafe(image, n, oxs, limit, byteDepth1, c) {
        assert IsReadIff(planes[c], image, n, oxs, limit, byteDepth1, c);
      }
    }
    if forall c: nat | c < n :: ShortcutIsSafe(image, n, oxs, limit, byteDepth1, c) {
      forall c: nat | c < n ensures Crop(planes[c], oxs) == Channel(image, n, oxs, limit, c) {
        assert IsReadIff(planes[c], image, n, oxs, limit, byteDepth1, c);
      }
    }
  }

  // ----- an image that is not recovered -----

  /** A row whose red is 255 more than its blue, then a row whose red is 1 less. */
  function LossyImage(): Image {
    [Copies([255, 127, 0], 16), Copies([0, 0, 1], 16)]
  }

  lemma LossySamples()
    ensures ToChannels([255, 127, 0]) == [127, 255, 0] && ToChannels([0, 0, 1]) == [0, -1, 0]
  {
    FirstColour();
    SecondColour();
    hide ToYCoCg;
  }

  lemma FirstColour()
    ensures ToYCoCg(Pixel(255, 127, 0)) == YCoCg(127, 255, 0)
  {
    hide ToInt16;
    assert ToInt16(255 - 0) == 255 && ToInt16(0 + 255 / 2) == 127 && ToInt16(127 - 127) == 0 &&
           ToInt16(127 + 0 / 2) == 127;
  }

  lemma SecondColour()
    ensures ToYCoCg(Pixel(0, 0, 1)) == YCoCg(0, -1, 0)
  {
  }

  lemma LossyChannel()
    ensures IsImage(LossyImage(), 3, 16, 256)
    ensures Channel(LossyImage(), 3, 16, 256, 1) == [Copies(255, 16), Copies(-1, 16)]
  {
    hide ToChannels;
    LossySamples();
    var rows := Channel(LossyImage(), 3, 16, 256, 1);
    assert rows[0] == Copies(255, 16) && rows[1] == Copies(-1, 16);
  }

  /** Whatever complete code is used, this 8-bit image is not recovered from its bits. */
  lemma ImageIsNotRecovered(lens: seq<nat>, bits: seq<seq<bool>>, stream: seq<bool>, multiplier: nat, r: Reader)
    requires IsImage(LossyImage(), 3, 16, 256) && AreChannelBits(lens, bits, LossyImage(), 3, 16, 256, true) &&
             |bits| == 3
    requires r.count == 0 && multiplier > 0 && HoldsAt(stream, r.pos, FrameAssembly.Flatten(bits))
    ensures var g := ReadChannels(lens, stream, multiplier, r, 3, RoundedUp(16), 2);
            !Recovers(g.planes, LossyImage(), 3, 16)
  {
    hide AreChannelBits, HoldsAt, ReadChannels, FrameAssembly.Flatten, Recovers, Channel, IsImage, Skips, Repeats,
         IsPlane, IsBytePlane,
         DecodePlane, AllEmitted, Crop;
    LossyChannel();
    SignedChannelIsLost();
    assert RoundedUp(16) == 16;
    SectionReadsBack(lens, bits, LossyImage(), 3, 16, 256, true, stream, multiplier, r);
  }
}
