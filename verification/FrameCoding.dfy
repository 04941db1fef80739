/** A whole frame from pixels to sections and back (experimental/fast_lossless/fast_lossless.cc:467-535,
1286-1321): the global section, one section per group, and the table of contents in front of them.
 */
module FrameCoding {
  import opened Bits
  import opened BitReading
  import opened BitWriting
  import opened CanonicalCode
  import opened Alphabets
  import opened ChunkCoding
  import opened Prediction
  import opened PlaneCoding
  import opened RowShortcut
  import opened ImageArea
  import opened ImagePixels
  import opened PrefixHeader
  import opened PrefixHeaderWriting
  import opened SectionCoding
  import opened SectionSizes
  import opened GroupLayout
  import opened TocReading
  import opened FrameAssembly
  import opened GlobalHeader
  import UintConfigs
  import opened Huffman
  import opened PrefixCoding
  import opened Sequences

  /** Everything in the global section up to the pixels or the padding. */
  ghost function GlobalBits(header: seq<bool>, n: nat): seq<bool> {
    FieldBits(GLOBAL_FIELDS) + (header + OptionBits(n))
  }

  // ----- writers -----

  method NewWriters() returns (group: seq<BitWriter>)
    ensures AreDistinct(group) && Hold(group, [[], [], [], []])
    ensures forall j | 0 <= j < 4 :: fresh(group[j])
  {
    hide BitWriter.Valid, BitWriter.Contents;
    var a := new BitWriter();
    var b := new BitWriter();
    var c := new BitWriter();
    var d := new BitWriter();
    group := [a, b, c, d];
  }

  lemma GroupHoldsFirst(group: seq<BitWriter>, contents: seq<seq<bool>>, n: nat, output: BitWriter)
    requires Hold(group, contents) && n <= 4 && output !in group
    ensures GroupHolds(group[..n], contents[..n], output)
  {
    hide BitWriter.Valid, BitWriter.Contents;
  }

  lemma OnlyFirst(b: seq<bool>, n: nat)
    requires 0 < n <= 4
    ensures Flatten([b, [], [], []][..n]) == b
  {
    var contents := [b, [], [], []];
    NoneFlat(contents[1..n]);
    assert contents[..n][0] == b && contents[..n][1..] == contents[1..n];
    assert b + [] == b;
  }

  lemma {:induction false} NoneFlat(parts: seq<seq<bool>>)
    requires forall k | 0 <= k < |parts| :: parts[k] == []
    ensures Flatten(parts) == []
  {
    if parts != [] {
      NoneFlat(parts[1..]);
    }
  }

  // ----- the sections -----

  /** `PrepareDCGlobal` of an image with several groups. */
  method EncodeGlobal(code: PrefixTables, n: nat) returns (group: seq<BitWriter>, ghost header: seq<bool>)
    requires code.Valid() && Taken(code.rawNbits + code.lz77Nbits, MAX_BITS) == Pow2(MAX_BITS)
    requires exists k :: 0 <= k < |code.lz77Nbits| && code.lz77Nbits[k] > 0
    ensures AreDistinct(group) && (forall j | 0 <= j < 4 :: fresh(group[j])) && IsHeaderOf(header, code.Lens())
    ensures Hold(group, [Padded(GlobalBits(header, n)), [], [], []])
  {
    hide BitWriter.Valid, BitWriter.Contents, PrefixTables.Valid, IsHeaderOf, Taken, Pow2, OptionBits, FieldBits,
         Hold, Padded;
    group := NewWriters();
    WriteGlobalFields(group);
    ghost var before := [FieldBits(GLOBAL_FIELDS), [], [], []];
    header := WriteCodeTo(code, n, group, before);
    assert WithFirst(before, header + OptionBits(n)) == [GlobalBits(header, n), [], [], []];
    CompleteByte(group, GlobalBits(header, n));
  }

  method CompleteByte(group: seq<BitWriter>, ghost b: seq<bool>)
    requires AreDistinct(group) && Hold(group, [b, [], [], []])
    modifies group
    ensures Hold(group, [Padded(b), [], [], []])
  {
    hide BitWriter.Valid, BitWriter.Contents;
    group[0].ZeroPadToByte();
  }

  /** The channel bits of one tile, behind what precedes them in the section. */
  ghost predicate IsSectionOf(lens: seq<nat>, data: seq<bool>, lead: seq<bool>, bits: seq<seq<bool>>, image: Image,
                              n: nat, width: nat, bitDepth: nat, t: Tile)
    requires IsImage(image, n, width, Pow2(bitDepth)) && t.IsIn(width, |image|)
  {
    ImageIsRectangle(image, n, width, Pow2(bitDepth));
    PartIsImage(image, n, width, Pow2(bitDepth), t);
    |bits| == n && data == lead + Flatten(bits) &&
    AreChannelBits(lens, bits, Part(image, width, t), n, Extent(width, t.x), Pow2(bitDepth), bitDepth <= 8)
  }

  /** One group of an image with several groups. */
  method EncodeSection(image: Image, n: nat, width: nat, bitDepth: nat, t: Tile, code: PrefixTables)
    returns (group: seq<BitWriter>, ghost contents: seq<seq<bool>>, ghost bits: seq<seq<bool>>)
    requires bitDepth <= MAX_BIT_DEPTH && IsImage(image, n, width, Pow2(bitDepth)) && t.IsIn(width, |image|)
    requires HasGuaranteed(code, ResidualBits(bitDepth, n))
    ensures |group| == 4 && (forall j | 0 <= j < 4 :: fresh(group[j])) && Hold(group, contents) && 0 < n <= 4
    ensures code.Valid()
    ensures IsSectionOf(code.Lens(), Flatten(contents[..n]), GroupHeaderBits(false), bits, image, n, width, bitDepth, t)
  {
    hide PrefixTables.Valid, Pow2, HasGuaranteed, Appended, AreChannelBits, CoversImage, CoversRuns, IsImage,
         BitWriter.Valid, BitWriter.Contents, GroupHeaderBits, PrefixTables.Lens, Part, Tile.IsIn, Extent, IsRectangle,
         Flatten;
    ImageIsRectangle(image, n, width, Pow2(bitDepth));
    PartIsImage(image, n, width, Pow2(bitDepth), t);
    var part, oxs := Part(image, width, t), Extent(width, t.x);
    DepthLimit(part, n, oxs, bitDepth);
    group := NewWriters();
    RunsCovered(code, ResidualBits(bitDepth, n));
    ImageCovered(code, part, n, oxs, bitDepth);
    ghost var before := [[], [], [], []];
    contents, bits := WriteACSection(part, n, oxs, Pow2(bitDepth), bitDepth <= 8, false, code, group, before);
    FlatSection(before, GroupHeaderBits(false), bits, contents, n);
  }

  lemma FlatSection(before: seq<seq<bool>>, lead: seq<bool>, bits: seq<seq<bool>>, contents: seq<seq<bool>>, n: nat)
    requires before == [[], [], [], []] && Appended(WithFirst(before, lead), bits, contents) && 0 < n == |bits| <= 4
    ensures |contents| == 4 && Flatten(contents[..n]) == lead + Flatten(bits)
  {
    hide Flatten;
    SplicedBits(WithFirst(before, lead), bits, contents, n);
    assert bits[..n] == bits && [] + lead == lead;
  }

  lemma GroupsNext(groups: seq<seq<BitWriter>>, parts: seq<seq<seq<bool>>>, group: seq<BitWriter>,
                   contents: seq<seq<bool>>, n: nat, output: BitWriter)
    requires GroupsHold(groups, parts, output) && Hold(group, contents) && n <= 4 && output !in group
    ensures GroupsHold(groups + [group[..n]], parts + [contents[..n]], output)
    ensures Datas(parts + [contents[..n]]) == Datas(parts) + [Flatten(contents[..n])]
  {
    hide GroupHolds, Hold, Flatten;
    GroupSizes4(group, contents);
    GroupHoldsFirst(group, contents, n, output);
    var groups', parts' := groups + [group[..n]], parts + [contents[..n]];
    forall i: nat | i < |groups'| ensures GroupHolds(groups'[i], parts'[i], output) {
      if i < |groups| {
        assert GroupHolds(groups[i], parts[i], output);
      }
    }
  }

  lemma GroupSizes4(group: seq<BitWriter>, contents: seq<seq<bool>>)
    requires Hold(group, contents)
    ensures |group| == |contents| == 4
  {
    hide BitWriter.Valid, BitWriter.Contents;
  }

  /** The sections of the DC groups and the global AC section are empty. */
  method AddEmpty(count: nat, n: nat, start: seq<seq<BitWriter>>, ghost startParts: seq<seq<seq<bool>>>,
                  ghost output: BitWriter)
    returns (groups: seq<seq<BitWriter>>, ghost parts: seq<seq<seq<bool>>>)
    requires GroupsHold(start, startParts, output) && 0 < n <= 4
    ensures GroupsHold(groups, parts, output)
    ensures Datas(parts) == Datas(startParts) + Copies<seq<bool>>([], count)
  {
    hide GroupsHold, Hold, Datas;
    groups, parts := start, startParts;
    assert Datas(parts) == Datas(startParts) + Copies<seq<bool>>([], 0);
    OnlyFirst([], n);
    for k := 0 to count
      invariant GroupsHold(groups, parts, output)
      invariant Datas(parts) == Datas(startParts) + Copies<seq<bool>>([], k)
    {
      var group := NewWriters();
      GroupsNext(groups, parts, group, [[], [], [], []], n, output);
      groups, parts := groups + [group[..n]], parts + [[[], [], [], []][..n]];
      assert Copies<seq<bool>>([], k) + [[]] == Copies<seq<bool>>([], k + 1);
    }
  }

  /** The first sections of the groups are there. */
  ghost predicate AreSections(lens: seq<nat>, datas: seq<seq<bool>>, first: nat, lead: seq<bool>,
                              bits: seq<seq<seq<bool>>>, image: Image, n: nat, width: nat, bitDepth: nat)
    requires IsImage(image, n, width, Pow2(bitDepth))
  {
    && first + |bits| <= |datas| && |bits| <= NumGroups(width, |image|)
    && forall g: nat | g < |bits| ::
         IsSectionOf(lens, datas[first + g], lead, bits[g], image, n, width, bitDepth, TileOf(width, |image|, g))
  }

  lemma SectionsNext(lens: seq<nat>, datas: seq<seq<bool>>, data: seq<bool>, first: nat, lead: seq<bool>,
                     bits: seq<seq<seq<bool>>>, next: seq<seq<bool>>, image: Image, n: nat, width: nat, bitDepth: nat)
    requires IsImage(image, n, width, Pow2(bitDepth)) && |bits| < NumGroups(width, |image|)
    requires AreSections(lens, datas, first, lead, bits, image, n, width, bitDepth) && |datas| == first + |bits|
    requires IsSectionOf(lens, data, lead, next, image, n, width, bitDepth, TileOf(width, |image|, |bits|))
    ensures AreSections(lens, datas + [data], first, lead, bits + [next], image, n, width, bitDepth)
  {
    hide IsSectionOf, TileOf, NumGroups;
  }

  method AddSections(image: Image, n: nat, width: nat, bitDepth: nat, code: PrefixTables,
                     start: seq<seq<BitWriter>>, ghost startParts: seq<seq<seq<bool>>>, ghost output: BitWriter)
    returns (groups: seq<seq<BitWriter>>, ghost parts: seq<seq<seq<bool>>>, ghost bits: seq<seq<seq<bool>>>)
    requires bitDepth <= MAX_BIT_DEPTH && IsImage(image, n, width, Pow2(bitDepth))
    requires HasGuaranteed(code, ResidualBits(bitDepth, n)) && GroupsHold(start, startParts, output)
    ensures GroupsHold(groups, parts, output) && code.Valid() && |bits| == NumGroups(width, |image|)
    ensures |Datas(parts)| == |startParts| + |bits| && Datas(parts)[..|startParts|] == Datas(startParts)
    ensures AreSections(code.Lens(), Datas(parts), |startParts|, GroupHeaderBits(false), bits, image, n, width,
                        bitDepth)
  {
    Guaranteed(code, ResidualBits(bitDepth, n));
    groups, parts, bits := start, startParts, [];
    hide *;
    assert Datas(parts)[..|startParts|] == Datas(startParts);
    NoSections(code.Lens(), Datas(parts), |startParts|, GroupHeaderBits(false), image, n, width, bitDepth);
    for g := 0 to NumGroups(width, |image|)
      invariant GroupsHold(groups, parts, output) && |bits| == g
      invariant |Datas(parts)| == |startParts| + g && Datas(parts)[..|startParts|] == Datas(startParts)
      invariant AreSections(code.Lens(), Datas(parts), |startParts|, GroupHeaderBits(false), bits, image, n, width,
                            bitDepth)
    {
      var group;
      ghost var contents, next;
      group, contents, next := EncodeSection(image, n, width, bitDepth, TileOf(width, |image|, g), code);
      GroupsNext(groups, parts, group, contents, n, output);
      SectionsNext(code.Lens(), Datas(parts), Flatten(contents[..n]), |startParts|, GroupHeaderBits(false), bits, next,
                   image, n, width, bitDepth);
      KeepsFirst(Datas(parts), Flatten(contents[..n]), |startParts|);
      groups, parts, bits := groups + [group[..n]], parts + [contents[..n]], bits + [next];
    }
  }

  lemma KeepsFirst(datas: seq<seq<bool>>, data: seq<bool>, first: nat)
    requires first <= |datas|
    ensures (datas + [data])[..first] == datas[..first]
  {
  }

  lemma NoSections(lens: seq<nat>, datas: seq<seq<bool>>, first: nat, lead: seq<bool>, image: Image, n: nat,
                   width: nat, bitDepth: nat)
    requires IsImage(image, n, width, Pow2(bitDepth)) && |datas| == first
    ensures AreSections(lens, datas, first, lead, [], image, n, width, bitDepth)
  {
  }

  // ----- the frame -----

  function NumEmpty(width: nat, height: nat): nat {
    1 + DcTiles(width) * DcTiles(height)
  }

  /** What precedes the channels in the section of a group. */
  ghost function Lead(header: seq<bool>, n: nat, width: nat, height: nat): seq<bool> {
    if IsSingle(width, height) then GlobalBits(header, n) else GroupHeaderBits(false)
  }

  /** All sections: the global one, which holds the code of `lens`, the empty ones, and one per group. */
  ghost predicate IsFrame(lens: seq<nat>, header: seq<bool>, bits: seq<seq<seq<bool>>>, datas: seq<seq<bool>>,
                          image: Image, n: nat, width: nat, bitDepth: nat)
    requires IsImage(image, n, width, Pow2(bitDepth))
  {
    var height := |image|;
    var first := if IsSingle(width, height) then 0 else 1 + NumEmpty(width, height);
    && IsPrefixLengths(lens) && IsHeaderOf(header, lens) && |bits| == NumGroups(width, height)
    && |datas| == NumSections(width, height)
    && AreSections(lens, datas, first, Lead(header, n, width, height), bits, image, n, width, bitDepth)
    && (IsSingle(width, height) ||
        datas[..first] == [Padded(GlobalBits(header, n))] + Copies<seq<bool>>([], NumEmpty(width, height)))
  }

  lemma FirstGroup(group: seq<BitWriter>, b: seq<bool>, n: nat, output: BitWriter)
    requires Hold(group, [b, [], [], []]) && 0 < n <= 4 && output !in group
    ensures GroupsHold([group[..n]], [[b, [], [], []][..n]], output) && Datas([[b, [], [], []][..n]]) == [b]
  {
    hide GroupHolds, Hold, Flatten;
    OnlyFirst(b, n);
    var contents := [b, [], [], []];
    GroupSizes4(group, contents);
    GroupsNext([], [], group, contents, n, output);
    assert [] + [group[..n]] == [group[..n]] && [] + [contents[..n]] == [contents[..n]];
  }

  method EncodeMulti(image: Image, n: nat, width: nat, bitDepth: nat, sampledRaw: seq<nat>, sampledLz77: seq<nat>,
                     ghost output: BitWriter)
    returns (groups: seq<seq<BitWriter>>, code: PrefixTables, ghost header: seq<bool>, ghost bits: seq<seq<seq<bool>>>,
             ghost parts: seq<seq<seq<bool>>>)
    requires bitDepth <= MAX_BIT_DEPTH && IsImage(image, n, width, Pow2(bitDepth)) && !IsSingle(width, |image|)
    requires |sampledRaw| == NUM_RAW && |sampledLz77| == NUM_LZ77
    ensures GroupsHold(groups, parts, output) && code.Valid()
    ensures IsFrame(code.Lens(), header, bits, Datas(parts), image, n, width, bitDepth)
  {
    hide PrefixTables.Valid, Pow2, HasGuaranteed, AreSections, IsImage, Hold, GroupsHold, Datas, Taken, NumGroups,
         BitWriter.Valid, BitWriter.Contents, GroupHeaderBits, PrefixTables.Lens, IsHeaderOf, GlobalBits, Padded,
         IsPrefixLengths, IsSingle, DcTiles, RawUsed;
    DepthLimit(image, n, width, bitDepth);
    ghost var rawCounts, lz77Counts;
    code, rawCounts, lz77Counts := ChooseCode(sampledRaw, sampledLz77, bitDepth, n);
    HasLz77(code, ResidualBits(bitDepth, n));
    LensAreLengths(code);
    var group;
    group, header := EncodeGlobal(code, n);
    FirstGroup(group, Padded(GlobalBits(header, n)), n, output);
    groups, parts := [group[..n]], [[Padded(GlobalBits(header, n)), [], [], []][..n]];
    groups, parts := AddEmpty(NumEmpty(width, |image|), n, groups, parts, output);
    ghost var first := |parts|;
    ghost var before := Datas(parts);
    groups, parts, bits := AddSections(image, n, width, bitDepth, code, groups, parts, output);
    assert first == 1 + NumEmpty(width, |image|);
  }

  lemma LensAreLengths(code: PrefixTables)
    requires code.Valid()
    ensures |code.rawNbits| == NUM_RAW && |code.lz77Nbits| == NUM_LZ77 && IsPrefixLengths(code.Lens())
  {
    hide AreCodewords, IsPrefixLengths;
    AlphabetIsPrefix(code.rawNbits, code.lz77Nbits);
  }

  method EncodeSingle(image: Image, n: nat, width: nat, bitDepth: nat, sampledRaw: seq<nat>, sampledLz77: seq<nat>,
                      ghost output: BitWriter)
    returns (groups: seq<seq<BitWriter>>, code: PrefixTables, ghost header: seq<bool>, ghost bits: seq<seq<seq<bool>>>,
             ghost parts: seq<seq<seq<bool>>>)
    requires bitDepth <= MAX_BIT_DEPTH && IsImage(image, n, width, Pow2(bitDepth)) && IsSingle(width, |image|)
    requires |sampledRaw| == NUM_RAW && |sampledLz77| == NUM_LZ77
    ensures GroupsHold(groups, parts, output) && code.Valid()
    ensures IsFrame(code.Lens(), header, bits, Datas(parts), image, n, width, bitDepth)
  {
    hide PrefixTables.Valid, Pow2, IsGroup, IsImage, Hold, GroupHolds, Flatten, BitWriter.Valid, BitWriter.Contents,
         PrefixTables.Lens, IsPrefixLengths, FieldBits, AreFields, OptionBits, IsHeaderOf, IsFrame;
    DepthLimit(image, n, width, bitDepth);
    SingleSides(image, n, width, bitDepth);
    FieldsFit();
    var group := NewWriters();
    WriteGlobalFields(group);
    ghost var before, contents, channels := [FieldBits(GLOBAL_FIELDS), [], [], []], [], [];
    code, header, contents, channels := EncodeGroup(image, n, width, bitDepth, sampledRaw, sampledLz77, group, before);
    GroupSizes4(group, contents);
    GroupParts(code, header, before, contents, channels, image, n, width, bitDepth);
    GroupsNext([], [], group, contents, n, output);
    groups, parts, bits := [group[..n]], [contents[..n]], [channels];
    assert [] + groups == groups && [] + parts == parts;
    LensAreLengths(code);
    SingleFrame(code.Lens(), header, channels, Datas(parts), image, n, width, bitDepth);
  }

  method WriteGlobalFields(group: seq<BitWriter>)
    requires AreDistinct(group) && Hold(group, [[], [], [], []])
    modifies group
    ensures Hold(group, [FieldBits(GLOBAL_FIELDS), [], [], []])
  {
    hide BitWriter.Valid, BitWriter.Contents, FieldBits, AreFields;
    FieldsFit();
    WriteFields(group[0], GLOBAL_FIELDS);
  }

  lemma SingleSides(image: Image, n: nat, width: nat, bitDepth: nat)
    requires IsImage(image, n, width, Pow2(bitDepth)) && IsSingle(width, |image|)
    ensures width <= MAX_SIDE && |image| <= MAX_SIDE
  {
  }

  lemma SingleFrame(lens: seq<nat>, header: seq<bool>, channels: seq<seq<bool>>, datas: seq<seq<bool>>, image: Image,
                    n: nat, width: nat, bitDepth: nat)
    requires IsImage(image, n, width, Pow2(bitDepth)) && IsSingle(width, |image|) && |channels| == n
    requires IsPrefixLengths(lens) && IsHeaderOf(header, lens)
    requires datas == [FieldBits(GLOBAL_FIELDS) + (header + OptionBits(n)) + Flatten(channels)]
    requires AreChannelBits(lens, channels, image, n, width, Pow2(bitDepth), bitDepth <= 8)
    ensures IsFrame(lens, header, [channels], datas, image, n, width, bitDepth)
  {
    hide IsPrefixLengths, IsHeaderOf, IsImage, AreChannelBits, Flatten, Pow2, FieldBits, OptionBits;
    ImageIsRectangle(image, n, width, Pow2(bitDepth));
    SinglePart(image, width);
  }

  // ----- everything fits the table of contents -----

  lemma SectionFits(lens: seq<nat>, data: seq<bool>, lead: seq<bool>, bits: seq<seq<bool>>, image: Image, n: nat,
                    width: nat, bitDepth: nat, t: Tile)
    requires IsImage(image, n, width, Pow2(bitDepth)) && t.IsIn(width, |image|) && IsPrefixLengths(lens)
    requires IsSectionOf(lens, data, lead, bits, image, n, width, bitDepth, t) && |lead| <= 8192
    ensures ByteSize(data) < TOC_LIMIT
  {
    hide IsPrefixLengths, IsImage, AreChannelBits, Flatten, Pow2, Part;
    ImageIsRectangle(image, n, width, Pow2(bitDepth));
    PartIsImage(image, n, width, Pow2(bitDepth), t);
    ChannelsSize(lens, bits, Part(image, width, t), n, Extent(width, t.x), Pow2(bitDepth), bitDepth <= 8);
  }

  lemma GlobalSize(header: seq<bool>, lens: seq<nat>, n: nat)
    requires IsHeaderOf(header, lens)
    ensures |GlobalBits(header, n)| <= 8000 && ByteSize(Padded(GlobalBits(header, n))) < TOC_LIMIT
    ensures |GroupHeaderBits(false)| == 4
  {
    HeaderSize(header, lens);
    FieldsFit();
    hide FieldBits, IsHeaderOf;
  }

  lemma FrameFits(lens: seq<nat>, header: seq<bool>, bits: seq<seq<seq<bool>>>, datas: seq<seq<bool>>, image: Image,
                  n: nat, width: nat, bitDepth: nat)
    requires IsImage(image, n, width, Pow2(bitDepth))
    requires IsFrame(lens, header, bits, datas, image, n, width, bitDepth)
    ensures SizesFit(datas)
  {
    hide IsPrefixLengths, IsImage, IsHeaderOf, IsSectionOf, Pow2, GlobalBits, ByteSize, TileOf, NumGroups, DcTiles,
         GroupHeaderBits, Padded, IsSingle;
    GlobalSize(header, lens, n);
    SectionCount(width, |image|);
    var first := if IsSingle(width, |image|) then 0 else 1 + NumEmpty(width, |image|);
    assert ByteSize([]) == 0 by { NoBytes(); }
    forall k: nat | k < |datas| ensures ByteSize(datas[k]) < TOC_LIMIT {
      if k < first {
        assert datas[k] == datas[..first][k];
      } else {
        SectionFits(lens, datas[first + (k - first)], Lead(header, n, width, |image|), bits[k - first], image, n, width,
                    bitDepth, TileOf(width, |image|, k - first));
      }
    }
  }

  lemma SectionCount(width: nat, height: nat)
    ensures NumSections(width, height) ==
            (if IsSingle(width, height) then 0 else 1 + NumEmpty(width, height)) + NumGroups(width, height)
  {
  }

  lemma NoBytes()
    ensures ByteSize([]) == 0
  {
  }

  /** Any image, from its pixels to the bits behind the frame header. */
  method EncodeFrame(image: Image, n: nat, width: nat, bitDepth: nat, sampledRaw: seq<nat>, sampledLz77: seq<nat>,
                     output: BitWriter)
    returns (code: PrefixTables, ghost header: seq<bool>, ghost bits: seq<seq<seq<bool>>>, ghost datas: seq<seq<bool>>)
    requires bitDepth <= MAX_BIT_DEPTH && IsImage(image, n, width, Pow2(bitDepth)) && output.Valid()
    requires |sampledRaw| == NUM_RAW && |sampledLz77| == NUM_LZ77
    modifies output
    ensures code.Valid() && IsFrame(code.Lens(), header, bits, datas, image, n, width, bitDepth) && SizesFit(datas)
    ensures forall gx: nat, gy: nat, dx: nat, dy: nat | AreCovers(width, |image|, gx, gy, dx, dy) ::
              |datas| == if gx == 1 && gy == 1 then 1 else 2 + dx * dy + gx * gy
    ensures output.Valid()
    ensures output.Contents() == old(output.Contents()) + (TocStart(|old(output.Contents())|) + FrameBody(datas))
  {
    hide PrefixTables.Valid, Pow2, IsImage, GroupsHold, BitWriter.Contents, Datas, PrefixTables.Lens, IsFrame, SizesFit,
         FrameBody, TocStart, IsSingle, AreCovers, NumSections, NumGroups;
    var groups;
    ghost var parts;
    if IsSingle(width, |image|) {
      groups, code, header, bits, parts := EncodeSingle(image, n, width, bitDepth, sampledRaw, sampledLz77, output);
    } else {
      groups, code, header, bits, parts := EncodeMulti(image, n, width, bitDepth, sampledRaw, sampledLz77, output);
    }
    datas := Datas(parts);
    TableSizes(code);
    FrameGroups(code.Lens(), header, bits, datas, image, n, width, bitDepth);
    CountSections(width, |image|);
    FrameFits(code.Lens(), header, bits, datas, image, n, width, bitDepth);
    AssembleBody(groups, output, parts);
  }

  // ----- reading a frame -----

  /** One number above 0 for each group: what the special distances are scaled by. */
  ghost predicate AreMultipliers(multipliers: seq<nat>, count: nat) {
    |multipliers| == count && forall g | 0 <= g < count :: multipliers[g] > 0
  }

  /** The planes of a tile, read by one reader from `start` on; the frame has the padded width. */
  ghost function ReadGroup(lens: seq<nat>, s: seq<bool>, multiplier: nat, start: nat, n: nat, width: nat, height: nat,
                           t: Tile): seq<seq<Row>>
    requires multiplier > 0 && t.IsIn(width, height)
  {
    PaddedTiles(width, t.x);
    ReadChannels(lens, s, multiplier, Reader(start, [], 0, 0), n, Extent(RoundedUp(width), t.x), Extent(height, t.y))
      .planes
  }

  /** The coding that `ChunkCoding` reads and the predictor that `PlaneCoding` inverts; others are not modelled. */
  predicate IsPixelCoding(global: Global) {
    && global.leaf == Leaf(5, 0, 0, 0) && global.coding.contextMap == [1, 0]
    && global.coding.lz77 == Lz77(LZ77_OFFSET, LZ77_MIN_LENGTH, LENGTH_CONFIG)
    && global.coding.configs.1 == SYMBOL_CONFIG && global.coding.sizes.1 == ALPHABET_SIZE && global.coding.distance == 1
  }

  /** The code of the pixels, and where the header behind it ends. */
  datatype Setup = Setup(lens: seq<nat>, end: nat)

  /** The global section: the coding, the code, and the transforms, which are YCoCg for colour. */
  ghost function SetupAt(s: seq<bool>, at: nat, n: nat): UintConfigs.Option<Setup> {
    var global := GlobalAt(s, at);
    if global.None? || !IsPixelCoding(global.value) then UintConfigs.None
    else
      var code := ReadComplexCode(s, global.value.coding.end, ALPHABET_SIZE);
      if code.None? then UintConfigs.None
      else
        var header := ImageHeaderAt(s, code.value.pos);
        if header.ImageHeader? && header.transforms == (if n > 2 then [Rct(0, 6)] else [])
        then UintConfigs.Some(Setup(code.value.lens, header.end)) else UintConfigs.None
  }

  /** Pixels begin behind the global header of a single group, and behind the header of the group otherwise. */
  ghost function GroupStart(s: seq<bool>, toc: Toc, setup: Setup, width: nat, height: nat, g: nat): ImageHeader
    requires g < NumGroups(width, height) && |toc.offsets| == NumSections(width, height)
  {
    if IsSingle(width, height) then ImageHeader([], setup.end)
    else ImageHeaderAt(s, toc.end + 8 * toc.offsets[SectionOf(width, height, g)])
  }

  /** A header without transforms. */
  predicate IsPlain(header: ImageHeader) {
    header.ImageHeader? && header.transforms == []
  }

  /** The decoder behind the frame header: the table of contents, the coding and the code in the global section, and
      the planes of every group. */
  ghost function ReadFrame(s: seq<bool>, pos: nat, n: nat, width: nat, height: nat, multipliers: seq<nat>,
                           decode: PermutationDecoder): (planes: UintConfigs.Option<seq<seq<seq<Row>>>>)
    requires IsDecoder(decode) && AreMultipliers(multipliers, NumGroups(width, height))
    ensures planes.Some? ==> |planes.value| == NumGroups(width, height)
  {
    var outcome := ParseToc(s, pos, NumSections(width, height), decode);
    if !outcome.Success? then UintConfigs.None
    else
      AcceptedTiles(s, pos, NumSections(width, height), decode);
      var setup := SetupAt(s, outcome.toc.end + 8 * outcome.toc.offsets[0], n);
      if setup.None? then UintConfigs.None else ReadGroups(s, outcome.toc, setup.value, n, width, height, multipliers)
  }

  ghost function ReadGroups(s: seq<bool>, toc: Toc, setup: Setup, n: nat, width: nat, height: nat,
                            multipliers: seq<nat>): (planes: UintConfigs.Option<seq<seq<seq<Row>>>>)
    requires AreMultipliers(multipliers, NumGroups(width, height)) && |toc.offsets| == NumSections(width, height)
    ensures planes.Some? ==> |planes.value| == NumGroups(width, height)
  {
    if exists g: nat :: g < NumGroups(width, height) && !IsPlain(GroupStart(s, toc, setup, width, height, g))
    then UintConfigs.None
    else UintConfigs.Some(seq(NumGroups(width, height), g requires 0 <= g < NumGroups(width, height) =>
        var start := GroupStart(s, toc, setup, width, height, g);
        if IsPlain(start) then
          ReadGroup(setup.lens, s, multipliers[g], start.end, n, width, height, TileOf(width, height, g))
        else []))
  }

  /** The row shortcut is safe in both chroma channels of a tile. */
  ghost predicate TileIsSafe(image: Image, n: nat, width: nat, bitDepth: nat, t: Tile)
    requires IsImage(image, n, width, Pow2(bitDepth)) && n >= 3 && t.IsIn(width, |image|)
  {
    ImageIsRectangle(image, n, width, Pow2(bitDepth));
    PartIsImage(image, n, width, Pow2(bitDepth), t);
    var part, oxs := Part(image, width, t), Extent(width, t.x);
    ShortcutIsSafe(part, n, oxs, Pow2(bitDepth), bitDepth <= 8, 1) &&
    ShortcutIsSafe(part, n, oxs, Pow2(bitDepth), bitDepth <= 8, 2)
  }

  /** A tile is read back from its bits. */
  lemma TileReadsBack(lens: seq<nat>, data: seq<bool>, lead: seq<bool>, bits: seq<seq<bool>>, image: Image, n: nat,
                      width: nat, bitDepth: nat, t: Tile, s: seq<bool>, start: nat, multiplier: nat)
    requires IsImage(image, n, width, Pow2(bitDepth)) && t.IsIn(width, |image|) && multiplier > 0
    requires IsRectangle(image, width) && IsSectionOf(lens, data, lead, bits, image, n, width, bitDepth, t)
    requires HoldsAt(s, start, Flatten(bits))
    ensures var planes := ReadGroup(lens, s, multiplier, start, n, width, |image|, t);
            HaveTileSize(planes, n, width, |image|, t) &&
            (GroupRecovers(planes, image, n, width, t) <==> n < 3 || TileIsSafe(image, n, width, bitDepth, t))
  {
    hide IsImage, AreChannelBits, Flatten, Pow2, Part, Extent, HoldsAt, ReadChannels, ShortcutIsSafe, Recovers,
         HaveSize, RoundedUp, Tile.IsIn, IsRectangle;
    PartIsImage(image, n, width, Pow2(bitDepth), t);
    PaddedTiles(width, t.x);
    var part, oxs := Part(image, width, t), Extent(width, t.x);
    DepthLimit(part, n, oxs, bitDepth);
    SectionReadsBack(lens, bits, part, n, oxs, Pow2(bitDepth), bitDepth <= 8, s, multiplier, Reader(start, [], 0, 0));
  }

  lemma GlobalHeld(s: seq<bool>, at: nat, header: seq<bool>, n: nat, tail: seq<bool>)
    requires HoldsAt(s, at, GlobalBits(header, n) + tail)
    ensures var code := at + |FieldBits(GLOBAL_FIELDS)|;
            HoldsAt(s, at, FieldBits(GLOBAL_FIELDS)) && HoldsAt(s, code, header) &&
            HoldsAt(s, code + |header|, OptionBits(n)) && HoldsAt(s, code + |header| + |OptionBits(n)|, tail)
  {
    hide FieldBits, OptionBits, HoldsAt;
    var fields := FieldBits(GLOBAL_FIELDS);
    HoldsAtSplit(s, at, GlobalBits(header, n), tail);
    HoldsAtSplit(s, at, fields, header + OptionBits(n));
    HoldsAtSplit(s, at + |fields|, header, OptionBits(n));
  }

  /** The options are read as the transform to YCoCg, or as none. */
  lemma OptionsRead(s: seq<bool>, pos: nat, n: nat)
    requires HoldsAt(s, pos, OptionBits(n))
    ensures ImageHeaderAt(s, pos) == ImageHeader(if n > 2 then [Rct(0, 6)] else [], pos + |OptionBits(n)|)
  {
    ImageHeaderBits();
    hide FieldBits, FromNat, HoldsAt, ImageHeaderAt;
    ImageHeaderIsRead(s, pos, n > 2);
  }

  lemma GroupHeaderRead(s: seq<bool>, pos: nat)
    requires HoldsAt(s, pos, GroupHeaderBits(false))
    ensures ImageHeaderAt(s, pos) == ImageHeader([], pos + |GroupHeaderBits(false)|)
  {
    ImageHeaderBits();
    hide FieldBits, FromNat, HoldsAt, ImageHeaderAt;
    ImageHeaderIsRead(s, pos, false);
  }

  lemma SetupHeld(s: seq<bool>, at: nat, lens: seq<nat>, header: seq<bool>, n: nat, tail: seq<bool>)
    requires IsHeaderOf(header, lens) && HoldsAt(s, at, GlobalBits(header, n) + tail)
    ensures var end := at + |GlobalBits(header, n)|;
            SetupAt(s, at, n) == UintConfigs.Some(Setup(lens, end)) && HoldsAt(s, end, tail)
  {
    hide HoldsAt, ReadComplexCode, FieldBits, IsHeaderOf, GlobalAt, ImageHeaderAt, OptionBits;
    GlobalHeld(s, at, header, n, tail);
    GlobalIsRead(s, at);
    HeaderRead(header, lens, s, at + |FieldBits(GLOBAL_FIELDS)|);
    OptionsRead(s, at + |FieldBits(GLOBAL_FIELDS)| + |header|, n);
  }

  /** Where the decoder finds the code. */
  lemma SetupRead(lens: seq<nat>, header: seq<bool>, bits: seq<seq<seq<bool>>>, datas: seq<seq<bool>>, image: Image,
                  n: nat, width: nat, bitDepth: nat, s: seq<bool>, toc: Toc)
    requires IsImage(image, n, width, Pow2(bitDepth)) && LeadsTo(s, toc, datas)
    requires IsFrame(lens, header, bits, datas, image, n, width, bitDepth)
    ensures |datas| > 0 && toc.offsets != []
    ensures var at := toc.end + 8 * toc.offsets[0];
            SetupAt(s, at, n) == UintConfigs.Some(Setup(lens, at + |GlobalBits(header, n)|))
  {
    hide IsPrefixLengths, IsImage, Pow2, GlobalBits, TileOf, NumGroups, DcTiles, AreChannelBits, Part,
         GroupHeaderBits, IsSingle, HoldsAt, IsHeaderOf, Flatten, SetupAt;
    SectionCount(width, |image|);
    var at := toc.end + 8 * toc.offsets[0];
    if IsSingle(width, |image|) {
      assert datas[0] == GlobalBits(header, n) + Flatten(bits[0]);
      HoldsAtSplit(s, at, datas[0], Zeros(Padding(|datas[0]|)));
      SetupHeld(s, at, lens, header, n, Flatten(bits[0]));
    } else {
      assert datas[0] == datas[..1 + NumEmpty(width, |image|)][0] == Padded(GlobalBits(header, n));
      HoldsAtSplit(s, at, datas[0], Zeros(Padding(|datas[0]|)));
      SetupHeld(s, at, lens, header, n, Zeros(Padding(|GlobalBits(header, n)|)));
    }
  }

  /** The section of a group, found through the table of contents. */
  lemma GroupHeld(lens: seq<nat>, header: seq<bool>, bits: seq<seq<seq<bool>>>, datas: seq<seq<bool>>, image: Image,
                  n: nat, width: nat, bitDepth: nat, s: seq<bool>, toc: Toc, g: nat)
    requires IsImage(image, n, width, Pow2(bitDepth)) && LeadsTo(s, toc, datas) && g < |bits|
    requires IsFrame(lens, header, bits, datas, image, n, width, bitDepth)
    ensures |toc.offsets| == NumSections(width, |image|) && toc.offsets != [] && g < NumGroups(width, |image|)
    ensures var t, k := TileOf(width, |image|, g), SectionOf(width, |image|, g);
            k < |datas| &&
            IsSectionOf(lens, datas[k], Lead(header, n, width, |image|), bits[g], image, n, width, bitDepth, t)
    ensures var setup := Setup(lens, toc.end + 8 * toc.offsets[0] + |GlobalBits(header, n)|);
            var start := GroupStart(s, toc, setup, width, |image|, g);
            IsPlain(start) && HoldsAt(s, start.end, Flatten(bits[g]))
  {
    hide IsPrefixLengths, IsImage, Pow2, GlobalBits, TileOf, NumGroups, DcTiles, AreChannelBits, Part,
         GroupHeaderBits, IsSingle, HoldsAt, FieldBits, IsHeaderOf, Flatten, OptionBits, ImageHeaderAt, SetupAt;
    SectionCount(width, |image|);
    OneGroup(width, |image|);
    var k := SectionOf(width, |image|, g);
    var at := toc.end + 8 * toc.offsets[k];
    var lead := Lead(header, n, width, |image|);
    assert datas[k] == lead + Flatten(bits[g]);
    HoldsAtSplit(s, at, datas[k], Zeros(Padding(|datas[k]|)));
    HoldsAtSplit(s, at, lead, Flatten(bits[g]));
    if !IsSingle(width, |image|) {
      GroupHeaderRead(s, at);
    }
  }

  lemma OneGroup(width: nat, height: nat)
    ensures IsSingle(width, height) ==> NumGroups(width, height) == 1
  {
  }

  /** The decoder gets the planes of all groups, and a group comes back exactly if it is safe. */
  lemma GroupsReadBack(lens: seq<nat>, header: seq<bool>, bits: seq<seq<seq<bool>>>, datas: seq<seq<bool>>,
                       image: Image, n: nat, width: nat, bitDepth: nat, s: seq<bool>, pos: nat,
                       multipliers: seq<nat>, decode: PermutationDecoder, g: nat)
    requires IsImage(image, n, width, Pow2(bitDepth)) && IsRectangle(image, width) && IsDecoder(decode)
    requires AreMultipliers(multipliers, NumGroups(width, |image|)) && g < NumGroups(width, |image|)
    requires IsFrame(lens, header, bits, datas, image, n, width, bitDepth)
    requires var outcome := ParseToc(s, pos, NumSections(width, |image|), decode);
             outcome.Success? && LeadsTo(s, outcome.toc, datas)
    ensures var read := ReadFrame(s, pos, n, width, |image|, multipliers, decode);
            var t := TileOf(width, |image|, g);
            read.Some? && HaveTileSize(read.value[g], n, width, |image|, t) &&
            (GroupRecovers(read.value[g], image, n, width, t) <==> n < 3 || TileIsSafe(image, n, width, bitDepth, t))
  {
    hide IsPrefixLengths, IsImage, Pow2, TileOf, NumGroups, IsSectionOf, IsRectangle, LeadsTo, ParseToc, IsDecoder,
         HoldsAt, IsHeaderOf, Flatten, IsFrame, SetupAt, ReadGroup, GroupStart, SectionOf, NumSections, Lead,
         TileIsSafe, GroupRecovers, HaveTileSize, IsPlain, ReadGroups, GlobalBits;
    var toc := ParseToc(s, pos, NumSections(width, |image|), decode).toc;
    var t := TileOf(width, |image|, g);
    FrameGroups(lens, header, bits, datas, image, n, width, bitDepth);
    SetupRead(lens, header, bits, datas, image, n, width, bitDepth, s, toc);
    GroupHeld(lens, header, bits, datas, image, n, width, bitDepth, s, toc, g);
    var setup := Setup(lens, toc.end + 8 * toc.offsets[0] + |GlobalBits(header, n)|);
    AllPlain(lens, header, bits, datas, image, n, width, bitDepth, s, toc, setup, multipliers);
    PlainEnds(GroupStart(s, toc, setup, width, |image|, g));
    TileReadsBack(lens, datas[SectionOf(width, |image|, g)], Lead(header, n, width, |image|), bits[g], image, n, width,
                  bitDepth, t, s, GroupStart(s, toc, setup, width, |image|, g).end, multipliers[g]);
  }

  lemma PlainEnds(start: ImageHeader)
    requires IsPlain(start)
    ensures start.ImageHeader?
  {
  }

  /** All groups have their headers. */
  lemma AllPlain(lens: seq<nat>, header: seq<bool>, bits: seq<seq<seq<bool>>>, datas: seq<seq<bool>>, image: Image,
                 n: nat, width: nat, bitDepth: nat, s: seq<bool>, toc: Toc, setup: Setup, multipliers: seq<nat>)
    requires IsImage(image, n, width, Pow2(bitDepth)) && LeadsTo(s, toc, datas) && toc.offsets != []
    requires IsFrame(lens, header, bits, datas, image, n, width, bitDepth)
    requires AreMultipliers(multipliers, NumGroups(width, |image|)) && |toc.offsets| == NumSections(width, |image|)
    requires setup == Setup(lens, toc.end + 8 * toc.offsets[0] + |GlobalBits(header, n)|)
    ensures var read := ReadGroups(s, toc, setup, n, width, |image|, multipliers);
            read.Some? && forall g: nat | g < NumGroups(width, |image|) ::
              var start := GroupStart(s, toc, setup, width, |image|, g);
              IsPlain(start) && read.value[g] ==
                ReadGroup(lens, s, multipliers[g], start.end, n, width, |image|, TileOf(width, |image|, g))
  {
    hide IsPrefixLengths, IsImage, Pow2, TileOf, NumGroups, LeadsTo, HoldsAt, IsFrame, GroupStart, NumSections,
         ReadGroup, IsSectionOf, Lead, SectionOf, Flatten;
    FrameGroups(lens, header, bits, datas, image, n, width, bitDepth);
    forall g: nat | g < NumGroups(width, |image|) ensures IsPlain(GroupStart(s, toc, setup, width, |image|, g)) {
      GroupHeld(lens, header, bits, datas, image, n, width, bitDepth, s, toc, g);
    }
  }

  lemma FrameIsRead(lens: seq<nat>, header: seq<bool>, bits: seq<seq<seq<bool>>>, datas: seq<seq<bool>>,
                    image: Image, n: nat, width: nat, bitDepth: nat, s: seq<bool>, pos: nat,
                    multipliers: seq<nat>, decode: PermutationDecoder)
    requires IsImage(image, n, width, Pow2(bitDepth)) && IsDecoder(decode)
    requires AreMultipliers(multipliers, NumGroups(width, |image|))
    requires IsFrame(lens, header, bits, datas, image, n, width, bitDepth)
    requires var outcome := ParseToc(s, pos, NumSections(width, |image|), decode);
             outcome.Success? && LeadsTo(s, outcome.toc, datas)
    ensures ReadFrame(s, pos, n, width, |image|, multipliers, decode).Some?
  {
    hide IsPrefixLengths, IsImage, Pow2, TileOf, NumGroups, LeadsTo, ParseToc, IsDecoder, HoldsAt, IsFrame, SetupAt,
         ReadGroups, GlobalBits, NumSections, IsPlain, GroupStart, ReadGroup, AreTiles, AreMultipliers, Flatten;
    var toc := ParseToc(s, pos, NumSections(width, |image|), decode).toc;
    TocEntries(s, pos, NumSections(width, |image|), decode);
    SetupRead(lens, header, bits, datas, image, n, width, bitDepth, s, toc);
    var setup := Setup(lens, toc.end + 8 * toc.offsets[0] + |GlobalBits(header, n)|);
    AllPlain(lens, header, bits, datas, image, n, width, bitDepth, s, toc, setup, multipliers);
  }

  lemma TocEntries(s: seq<bool>, pos: nat, count: nat, decode: PermutationDecoder)
    requires IsDecoder(decode) && ParseToc(s, pos, count, decode).Success?
    ensures |ParseToc(s, pos, count, decode).toc.offsets| == count
  {
    AcceptedTiles(s, pos, count, decode);
    hide ParseToc, IsDecoder;
  }

  lemma FrameGroups(lens: seq<nat>, header: seq<bool>, bits: seq<seq<seq<bool>>>, datas: seq<seq<bool>>,
                    image: Image, n: nat, width: nat, bitDepth: nat)
    requires IsImage(image, n, width, Pow2(bitDepth))
    requires IsFrame(lens, header, bits, datas, image, n, width, bitDepth)
    ensures |bits| == NumGroups(width, |image|) && |datas| == NumSections(width, |image|)
  {
  }

  /** The round trip of a whole image. A decoder in front of what `EncodeFrame` wrote accepts it unless the
      table of contents has more than 65536 entries. Then every pixel comes back, but for colours under
      alpha 0, if and only if there is no colour or the row shortcut is safe in both chroma channels of
      every group. */
  lemma FrameReadsBack(lens: seq<nat>, header: seq<bool>, bits: seq<seq<seq<bool>>>, datas: seq<seq<bool>>,
                       image: Image, n: nat, width: nat, bitDepth: nat, s: seq<bool>, pos: nat,
                       multipliers: seq<nat>, decode: PermutationDecoder)
    requires IsImage(image, n, width, Pow2(bitDepth)) && IsRectangle(image, width) && IsDecoder(decode)
    requires AreMultipliers(multipliers, NumGroups(width, |image|))
    requires IsFrame(lens, header, bits, datas, image, n, width, bitDepth) && SizesFit(datas)
    requires HoldsAt(s, pos, TocStart(pos) + FrameBody(datas))
    ensures var read := ReadFrame(s, pos, n, width, |image|, multipliers, decode);
            (read.Some? <==> NumSections(width, |image|) <= 65536) &&
            (read.Some? ==>
               (FrameRecovers(read.value, image, n, width) <==>
                n < 3 || forall g | 0 <= g < NumGroups(width, |image|) ::
                           TileIsSafe(image, n, width, bitDepth, TileOf(width, |image|, g))))
  {
    hide IsImage, Pow2, TileOf, NumGroups, IsRectangle, LeadsTo, HoldsAt, IsFrame, GroupRecovers, HaveTileSize,
         TileIsSafe, FrameRecovers, TocStart, FrameBody, SizesFit, NumSections, ReadFrame;
    FrameGroups(lens, header, bits, datas, image, n, width, bitDepth);
    DepthLimit(image, n, width, bitDepth);
    if NumSections(width, |image|) <= MAX_TOC_ENTRIES {
      AssembledIsParsed(s, pos, datas, decode);
      hide ParseToc, IsDecoder;
      forall g: nat | g < NumGroups(width, |image|)
        ensures var read, t := ReadFrame(s, pos, n, width, |image|, multipliers, decode), TileOf(width, |image|, g);
                read.Some? && HaveTileSize(read.value[g], n, width, |image|, t) &&
                (GroupRecovers(read.value[g], image, n, width, t) <==>
                 n < 3 || TileIsSafe(image, n, width, bitDepth, t))
      {
        GroupsReadBack(lens, header, bits, datas, image, n, width, bitDepth, s, pos, multipliers, decode, g);
      }
      FrameIsRead(lens, header, bits, datas, image, n, width, bitDepth, s, pos, multipliers, decode);
      FrameIff(ReadFrame(s, pos, n, width, |image|, multipliers, decode).value, image, n, width);
    } else {
      TooManySections(s, pos, n, width, |image|, multipliers, decode);
    }
  }

  lemma TooManySections(s: seq<bool>, pos: nat, n: nat, width: nat, height: nat, multipliers: seq<nat>,
                        decode: PermutationDecoder)
    requires IsDecoder(decode) && AreMultipliers(multipliers, NumGroups(width, height))
    requires NumSections(width, height) > MAX_TOC_ENTRIES
    ensures ReadFrame(s, pos, n, width, height, multipliers, decode).None?
  {
    hide NumSections, NumGroups, IsDecoder;
  }
}
