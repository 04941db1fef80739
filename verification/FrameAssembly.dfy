/** Whole-stream consequences of the bit reader and the bit writer.

Fields written through any number of spliced writers are read back unchanged, and `AssembleFrame`
writes a table of the sizes of the groups in front of them.
 */
module FrameAssembly {
  import opened Bits
  import opened BitReading
  import opened BitWriting
  import opened Sums
  import opened Sequences

  // ----- lists of fields -----

  datatype Field = Field(count: nat, bits: nat)

  predicate IsField(f: Field) {
    f.count <= 56 && f.bits < Pow2(f.count)
  }

  predicate AreFields(fs: seq<Field>) {
    forall k | 0 <= k < |fs| :: IsField(fs[k])
  }

  function FieldBits(fs: seq<Field>): seq<bool> {
    if fs == [] then [] else FromNat(fs[0].bits, fs[0].count) + FieldBits(fs[1..])
  }

  lemma {:induction false} FieldBitsConcat(a: seq<Field>, b: seq<Field>)
    ensures FieldBits(a + b) == FieldBits(a) + FieldBits(b)
  {
    hide FromNat;
    if a == [] {
      assert a + b == b;
    } else {
      FieldBitsConcat(a[1..], b);
      assert (a + b)[1..] == a[1..] + b;
    }
  }

  function Flatten<T>(parts: seq<seq<T>>): seq<T> {
    if parts == [] then [] else parts[0] + Flatten(parts[1..])
  }

  lemma {:induction false} FlattenAppend<T>(parts: seq<seq<T>>, last: seq<T>)
    ensures Flatten(parts + [last]) == Flatten(parts) + last
  {
    if parts == [] {
      assert parts + [last] == [last];
      assert [last][1..] == [];
    } else {
      FlattenAppend(parts[1..], last);
      assert (parts + [last])[1..] == parts[1..] + [last];
    }
  }

  lemma FieldBitsNext(before: seq<bool>, fs: seq<Field>, i: nat)
    requires i < |fs|
    ensures before + FieldBits(fs[..i]) + FromNat(fs[i].bits, fs[i].count) == before + FieldBits(fs[..i + 1])
  {
    hide FromNat;
    FieldBitsConcat(fs[..i], [fs[i]]);
    assert fs[..i + 1] == fs[..i] + [fs[i]];
    assert [fs[i]][1..] == [];
    assert FieldBits([fs[i]]) == FromNat(fs[i].bits, fs[i].count) + FieldBits([]);
  }

  method WriteFields(w: BitWriter, fs: seq<Field>)
    requires w.Valid() && AreFields(fs)
    modifies w
    ensures w.Valid() && w.Contents() == old(w.Contents()) + FieldBits(fs)
  {
    assert FieldBits(fs[..0]) == [];
    hide FieldBits, FromNat, BitWriter.Valid, BitWriter.Contents;
    for i := 0 to |fs|
      invariant w.Valid() && w.Contents() == old(w.Contents()) + FieldBits(fs[..i])
    {
      w.Write(fs[i].count, fs[i].bits);
      FieldBitsNext(old(w.Contents()), fs, i);
    }
    assert fs[..|fs|] == fs;
  }

  lemma FieldHeld(s: seq<bool>, pos: nat, fs: seq<Field>, i: nat)
    requires i < |fs| && IsField(fs[i]) && HoldsAt(s, pos, FieldBits(fs[i..]))
    ensures NumberAt(s, pos, fs[i].count) == fs[i].bits
    ensures HoldsAt(s, pos + fs[i].count, FieldBits(fs[i + 1..]))
    ensures |FieldBits(fs[i..])| == fs[i].count + |FieldBits(fs[i + 1..])|
  {
    hide FromNat, HoldsAt, NumberAt;
    assert fs[i..][0] == fs[i] && fs[i..][1..] == fs[i + 1..];
    HoldsAtSplit(s, pos, FromNat(fs[i].bits, fs[i].count), FieldBits(fs[i + 1..]));
    HeldNumber(s, pos, fs[i].bits, fs[i].count);
  }

  /** Reads one value per field, with the field's width. */
  method ReadFields(r: BitReader, fs: seq<Field>) returns (values: seq<nat>)
    requires r.Valid() && AreFields(fs) && HoldsAt(ToBits(r.data), r.Position(), FieldBits(fs))
    modifies r
    ensures r.Valid() && r.Position() == old(r.Position()) + |FieldBits(fs)|
    ensures |values| == |fs| && forall k | 0 <= k < |fs| :: values[k] == fs[k].bits
  {
    values := [];
    assert fs[0..] == fs;
    assert FieldBits(fs[|fs|..]) == [];
    hide FieldBits, NumberAt, HoldsAt, ToBits, Pow2, BitReader.Valid;
    for i := 0 to |fs|
      invariant r.Valid() && |values| == i && forall k | 0 <= k < i :: values[k] == fs[k].bits
      invariant r.Position() + |FieldBits(fs[i..])| == old(r.Position()) + |FieldBits(fs)|
      invariant HoldsAt(ToBits(r.data), r.Position(), FieldBits(fs[i..]))
    {
      assert IsField(fs[i]);
      FieldHeld(ToBits(r.data), r.Position(), fs, i);
      var v := r.ReadBits(fs[i].count);
      values := values + [v];
    }
  }

  /** Each part goes through a writer of its own, the writers are spliced, and one reader gets
      every value back in order. */
  method SpliceAndRead(parts: seq<seq<Field>>) returns (values: seq<nat>)
    requires forall p | 0 <= p < |parts| :: AreFields(parts[p])
    ensures |values| == |Flatten(parts)|
    ensures forall k | 0 <= k < |values| :: values[k] == Flatten(parts)[k].bits
  {
    var output := Splice(parts);
    output.ZeroPadToByte();
    var r := new BitReader(output.data[..output.bytesWritten]);
    var fs := Flatten(parts);
    assert ToBits(r.data)[0..|FieldBits(fs)|] == FieldBits(fs);
    values := ReadFields(r, fs);
  }

  lemma SpliceStep(parts: seq<seq<Field>>, i: nat)
    requires i < |parts| && AreFields(parts[i]) && AreFields(Flatten(parts[..i]))
    ensures AreFields(Flatten(parts[..i + 1]))
    ensures FieldBits(Flatten(parts[..i + 1])) == FieldBits(Flatten(parts[..i])) + FieldBits(parts[i])
  {
    hide FieldBits, Flatten, IsField;
    FlattenAppend(parts[..i], parts[i]);
    assert parts[..i + 1] == parts[..i] + [parts[i]];
    FieldBitsConcat(Flatten(parts[..i]), parts[i]);
  }

  lemma NoParts(parts: seq<seq<Field>>)
    ensures AreFields(Flatten(parts[..0])) && FieldBits(Flatten(parts[..0])) == []
  {
    assert Flatten(parts[..0]) == [];
  }

  /** Writes each part through a writer of its own and appends the writers to one output. */
  method Splice(parts: seq<seq<Field>>) returns (output: BitWriter)
    requires forall p | 0 <= p < |parts| :: AreFields(parts[p])
    ensures fresh(output) && output.Valid()
    ensures AreFields(Flatten(parts)) && output.Contents() == FieldBits(Flatten(parts))
  {
    hide Flatten, FieldBits, BitWriter.Contents, BitWriter.Valid, AreFields;
    output := new BitWriter();
    NoParts(parts);
    for i := 0 to |parts|
      invariant fresh(output) && output.Valid()
      invariant output.Contents() == FieldBits(Flatten(parts[..i])) && AreFields(Flatten(parts[..i]))
    {
      var w := new BitWriter();
      WriteFields(w, parts[i]);
      AppendWriter(output, w);
      SpliceStep(parts, i);
    }
    assert parts[..|parts|] == parts;
  }

  // ----- the table of contents -----

  const TOC_LIMIT: nat := 4211712 + 0x4000_0000

  /** The four variants of `kTocDist`: number of bits and offset. */
  function TocVariant(selector: nat): (v: (nat, nat))
    ensures v.0 <= 30
  {
    if selector == 0 then (10, 0)
    else if selector == 1 then (14, 1024)
    else if selector == 2 then (22, 17408)
    else (30, 4211712)
  }

  function TocSelector(sz: nat): (selector: nat)
    ensures selector < 4
  {
    if sz < 1024 then 0 else if sz < 17408 then 1 else if sz < 4211712 then 2 else 3
  }

  function TocBits(sz: nat): seq<bool>
    requires sz < TOC_LIMIT
  {
    var (count, offset) := TocVariant(TocSelector(sz));
    FromNat(TocSelector(sz), 2) + FromNat(sz - offset, count)
  }

  function TocTable(sizes: seq<nat>): seq<bool>
    requires forall k | 0 <= k < |sizes| :: sizes[k] < TOC_LIMIT
  {
    if sizes == [] then [] else TocBits(sizes[0]) + TocTable(sizes[1..])
  }

  lemma {:induction false} TocTableAppend(sizes: seq<nat>, sz: nat)
    requires sz < TOC_LIMIT && forall k | 0 <= k < |sizes| :: sizes[k] < TOC_LIMIT
    ensures TocTable(sizes + [sz]) == TocTable(sizes) + TocBits(sz)
  {
    hide TocBits;
    if sizes == [] {
      assert sizes + [sz] == [sz];
      assert [sz][1..] == [];
    } else {
      TocTableAppend(sizes[1..], sz);
      assert (sizes + [sz])[1..] == sizes[1..] + [sz];
    }
  }

  lemma TocFits(sz: nat)
    requires sz < TOC_LIMIT
    ensures var (count, offset) := TocVariant(TocSelector(sz));
            offset <= sz && sz - offset < Pow2(count) && TocSelector(sz) < Pow2(2)
  {
    Pow2Small();
    Pow2Large();
  }

  lemma TocTableNext(before: seq<bool>, sizes: seq<nat>, i: nat)
    requires i < |sizes| && forall k | 0 <= k < |sizes| :: sizes[k] < TOC_LIMIT
    ensures before + TocTable(sizes[..i]) + TocBits(sizes[i]) == before + TocTable(sizes[..i + 1])
  {
    TocTableAppend(sizes[..i], sizes[i]);
    assert sizes[..i + 1] == sizes[..i] + [sizes[i]];
  }

  method WriteVariant(output: BitWriter, selector: nat, count: nat, v: nat)
    requires output.Valid() && selector < Pow2(2) && count <= 56 && v < Pow2(count)
    modifies output
    ensures output.Valid()
    ensures output.Contents() == old(output.Contents()) + (FromNat(selector, 2) + FromNat(v, count))
  {
    hide FromNat, Pow2, BitWriter.Valid, BitWriter.Contents;
    output.Write(2, selector);
    output.Write(count, v);
  }

  lemma TocBitsAre(sz: nat, selector: nat, count: nat, offset: nat)
    requires sz < TOC_LIMIT && selector == TocSelector(sz) && (count, offset) == TocVariant(selector)
    ensures offset <= sz && TocBits(sz) == FromNat(selector, 2) + FromNat(sz - offset, count)
    ensures selector < Pow2(2) && sz - offset < Pow2(count)
  {
    TocFits(sz);
  }

  method WriteTocEntry(output: BitWriter, sz: nat)
    requires output.Valid() && sz < TOC_LIMIT
    modifies output
    ensures output.Valid() && output.Contents() == old(output.Contents()) + TocBits(sz)
  {
    hide TocBits, FromNat, Pow2, BitWriter.Contents, BitWriter.Valid;
    if sz < 1024 {
      TocBitsAre(sz, 0, 10, 0);
      WriteVariant(output, 0, 10, sz);
    } else if sz - 1024 < 16384 {
      TocBitsAre(sz, 1, 14, 1024);
      WriteVariant(output, 1, 14, sz - 1024);
    } else if sz - 17408 < 0x40_0000 {
      TocBitsAre(sz, 2, 22, 17408);
      WriteVariant(output, 2, 22, sz - 17408);
    } else {
      TocBitsAre(sz, 3, 30, 4211712);
      WriteVariant(output, 3, 30, sz - 4211712);
    }
  }

  // ----- groups behind the table -----

  function Padded(b: seq<bool>): (p: seq<bool>)
    ensures |p| == (|b| + 7) / 8 * 8
  {
    b + Zeros(Padding(|b|))
  }

  lemma PaddedLength(b: seq<bool>)
    ensures |Padded(b)| % 8 == 0
  {
  }

  /** The size in bytes that the table records for a group. */
  function ByteSize(b: seq<bool>): nat {
    (|b| + 7) / 8
  }

  function ByteSizes(datas: seq<seq<bool>>): (sizes: seq<nat>)
    ensures |sizes| == |datas|
  {
    seq(|datas|, i requires 0 <= i < |datas| => ByteSize(datas[i]))
  }

  function GroupBits(datas: seq<seq<bool>>): seq<bool> {
    if datas == [] then [] else Padded(datas[0]) + GroupBits(datas[1..])
  }

  lemma {:induction false} GroupBitsAppend(datas: seq<seq<bool>>, last: seq<bool>)
    ensures GroupBits(datas + [last]) == GroupBits(datas) + Padded(last)
  {
    hide Padded;
    if datas == [] {
      assert datas + [last] == [last];
      assert [last][1..] == [];
    } else {
      GroupBitsAppend(datas[1..], last);
      assert (datas + [last])[1..] == datas[1..] + [last];
    }
  }

  ghost predicate SizesFit(datas: seq<seq<bool>>) {
    forall k | 0 <= k < |datas| :: ByteSize(datas[k]) < TOC_LIMIT
  }

  /** Everything `AssembleFrame` writes after the header: table, padding, groups. */
  ghost function FrameBody(datas: seq<seq<bool>>): seq<bool>
    requires SizesFit(datas)
  {
    Padded(TocTable(ByteSizes(datas))) + GroupBits(datas)
  }

  /** The writers of a group hold these bit strings, one per channel. */
  ghost predicate GroupHolds(group: seq<BitWriter>, parts: seq<seq<bool>>, output: BitWriter)
    reads group
  {
    |group| == |parts| &&
    forall j | 0 <= j < |group| :: group[j] != output && group[j].Valid() && group[j].Contents() == parts[j]
  }

  method GroupSize(group: seq<BitWriter>, ghost parts: seq<seq<bool>>, ghost output: BitWriter) returns (sz: nat)
    requires GroupHolds(group, parts, output)
    ensures sz == ByteSize(Flatten(parts))
  {
    sz := 0;
    assert Flatten(parts[..0]) == [];
    for j := 0 to |group|
      invariant sz == |Flatten(parts[..j])|
    {
      sz := sz + group[j].bytesWritten * 8 + group[j].bitsInBuffer;
      assert |group[j].Contents()| == |parts[j]|;
      FlattenAppend(parts[..j], parts[j]);
      assert parts[..j + 1] == parts[..j] + [parts[j]];
    }
    assert parts[..|parts|] == parts;
    sz := (sz + 7) / 8;
  }

  /** Splices the channels of one group and completes the last byte. */
  method AppendGroup(output: BitWriter, group: seq<BitWriter>, ghost parts: seq<seq<bool>>)
    requires output.Valid() && GroupHolds(group, parts, output) && |output.Contents()| % 8 == 0
    modifies output
    ensures output.Valid() && output.Contents() == old(output.Contents()) + Padded(Flatten(parts))
    ensures |output.Contents()| % 8 == 0
  {
    hide Flatten, BitWriter.Contents, GroupHolds, Padding;
    AppendChannels(output, group, parts);
    output.ZeroPadToByte();
    PaddedLength(Flatten(parts));
    PaddingShift(old(|output.Contents()|), |Flatten(parts)|);
  }

  lemma FlattenNext(before: seq<bool>, parts: seq<seq<bool>>, j: nat)
    requires j < |parts|
    ensures before + Flatten(parts[..j]) + parts[j] == before + Flatten(parts[..j + 1])
  {
    FlattenAppend(parts[..j], parts[j]);
    assert parts[..j + 1] == parts[..j] + [parts[j]];
  }

  method AppendChannels(output: BitWriter, group: seq<BitWriter>, ghost parts: seq<seq<bool>>)
    requires output.Valid() && GroupHolds(group, parts, output)
    modifies output
    ensures output.Valid() && output.Contents() == old(output.Contents()) + Flatten(parts)
  {
    assert Flatten(parts[..0]) == [];
    hide Flatten, BitWriter.Contents;
    for j := 0 to |group|
      invariant output.Valid() && output.Contents() == old(output.Contents()) + Flatten(parts[..j])
      invariant GroupHolds(group, parts, output)
    {
      AppendWriter(output, group[j]);
      FlattenNext(old(output.Contents()), parts, j);
    }
    assert parts[..|parts|] == parts;
  }

  ghost predicate GroupsHold(groups: seq<seq<BitWriter>>, parts: seq<seq<seq<bool>>>, output: BitWriter)
    reads set i, j | 0 <= i < |groups| && 0 <= j < |groups[i]| :: groups[i][j]
  {
    |groups| == |parts| && forall i | 0 <= i < |groups| :: GroupHolds(groups[i], parts[i], output)
  }

  ghost function Datas(parts: seq<seq<seq<bool>>>): (d: seq<seq<bool>>)
    ensures |d| == |parts|
  {
    seq(|parts|, i requires 0 <= i < |parts| => Flatten(parts[i]))
  }

  /** The part of `AssembleFrame` from the table of contents on. */
  method AssembleGroups(groups: seq<seq<BitWriter>>, output: BitWriter, ghost parts: seq<seq<seq<bool>>>)
    requires output.Valid() && |output.Contents()| % 8 == 0
    requires GroupsHold(groups, parts, output) && SizesFit(Datas(parts))
    modifies output
    ensures output.Valid() && output.Contents() == old(output.Contents()) + FrameBody(Datas(parts))
  {
    var sizes := GroupSizes(groups, parts, output);
    hide BitWriter.Contents, BitWriter.Valid, Padded, GroupBits, TocTable, ByteSize, Datas;
    WriteTocBefore(groups, output, parts, sizes);
    AppendGroups(output, groups, parts);
    Associative(old(output.Contents()), Padded(TocTable(sizes)), GroupBits(Datas(parts)));
  }

  /** Writing the table leaves the group writers alone. */
  method WriteTocBefore(groups: seq<seq<BitWriter>>, output: BitWriter, ghost parts: seq<seq<seq<bool>>>,
                        sizes: seq<nat>)
    requires output.Valid() && |output.Contents()| % 8 == 0 && GroupsHold(groups, parts, output)
    requires forall k | 0 <= k < |sizes| :: sizes[k] < TOC_LIMIT
    modifies output
    ensures output.Valid() && output.Contents() == old(output.Contents()) + Padded(TocTable(sizes))
    ensures |output.Contents()| % 8 == 0 && GroupsHold(groups, parts, output)
  {
    hide BitWriter.Contents, Padded, TocTable;
    WritePaddedToc(output, sizes);
  }

  method WritePaddedToc(output: BitWriter, sizes: seq<nat>)
    requires output.Valid() && |output.Contents()| % 8 == 0
    requires forall k | 0 <= k < |sizes| :: sizes[k] < TOC_LIMIT
    modifies output
    ensures output.Valid() && output.Contents() == old(output.Contents()) + Padded(TocTable(sizes))
    ensures |output.Contents()| % 8 == 0
  {
    hide TocTable, BitWriter.Contents, Padding;
    WriteToc(output, sizes);
    output.ZeroPadToByte();
    PaddedLength(TocTable(sizes));
    PaddingShift(old(|output.Contents()|), |TocTable(sizes)|);
  }

  lemma GroupBitsNext(before: seq<bool>, datas: seq<seq<bool>>, i: nat)
    requires i < |datas|
    ensures before + GroupBits(datas[..i]) + Padded(datas[i]) == before + GroupBits(datas[..i + 1])
  {
    GroupBitsAppend(datas[..i], datas[i]);
    assert datas[..i + 1] == datas[..i] + [datas[i]];
  }

  method GroupSizes(groups: seq<seq<BitWriter>>, ghost parts: seq<seq<seq<bool>>>, ghost output: BitWriter)
    returns (sizes: seq<nat>)
    requires GroupsHold(groups, parts, output)
    ensures sizes == ByteSizes(Datas(parts))
  {
    sizes := [];
    for i := 0 to |groups|
      invariant sizes == ByteSizes(Datas(parts))[..i]
    {
      var sz := GroupSize(groups[i], parts[i], output);
      sizes := sizes + [sz];
    }
  }

  method AppendGroups(output: BitWriter, groups: seq<seq<BitWriter>>, ghost parts: seq<seq<seq<bool>>>)
    requires output.Valid() && |output.Contents()| % 8 == 0 && GroupsHold(groups, parts, output)
    modifies output
    ensures output.Valid() && output.Contents() == old(output.Contents()) + GroupBits(Datas(parts))
  {
    ghost var datas := Datas(parts);
    assert GroupBits(datas[..0]) == [];
    for i := 0 to |groups|
      invariant output.Valid() && output.Contents() == old(output.Contents()) + GroupBits(datas[..i])
      invariant |output.Contents()| % 8 == 0 && GroupsHold(groups, parts, output)
    {
      AppendGroup(output, groups[i], parts[i]);
      GroupBitsNext(old(output.Contents()), datas, i);
    }
    assert datas[..|datas|] == datas;
  }

  method WriteToc(output: BitWriter, sizes: seq<nat>)
    requires output.Valid() && forall k | 0 <= k < |sizes| :: sizes[k] < TOC_LIMIT
    modifies output
    ensures output.Valid() && output.Contents() == old(output.Contents()) + TocTable(sizes)
  {
    assert TocTable(sizes[..0]) == [];
    hide TocTable, TocBits, BitWriter.Valid, BitWriter.Contents;
    for i := 0 to |sizes|
      invariant output.Valid() && output.Contents() == old(output.Contents()) + TocTable(sizes[..i])
    {
      WriteTocEntry(output, sizes[i]);
      TocTableNext(old(output.Contents()), sizes, i);
    }
    assert sizes[..|sizes|] == sizes;
  }

  // ----- where the groups are -----

  /** Bytes before group `i`. */
  function OffsetAt(sizes: seq<nat>, i: nat): nat
    requires i <= |sizes|
  {
    Sum(sizes[..i])
  }

  lemma OffsetNext(sizes: seq<nat>, i: nat)
    requires i < |sizes|
    ensures OffsetAt(sizes, i + 1) == OffsetAt(sizes, i) + sizes[i]
  {
    assert sizes[..i + 1] == sizes[..i] + [sizes[i]];
    SumAppend(sizes[..i], sizes[i]);
  }

  lemma PaddedSize(b: seq<bool>)
    ensures |Padded(b)| == 8 * ByteSize(b)
  {
  }

  lemma GroupBitsFirst(datas: seq<seq<bool>>)
    requires datas != []
    ensures GroupBits(datas) == Padded(datas[0]) + GroupBits(datas[1..])
  {
  }

  lemma NoOffset(sizes: seq<nat>)
    ensures OffsetAt(sizes, 0) == 0
  {
  }

  /** Every group starts at its offset. */
  lemma {:induction false} GroupsHeld(s: seq<bool>, pos: nat, datas: seq<seq<bool>>, i: nat)
    requires i <= |datas| && HoldsAt(s, pos, GroupBits(datas))
    ensures HoldsAt(s, pos + 8 * OffsetAt(ByteSizes(datas), i), GroupBits(datas[i..]))
    ensures i < |datas| ==> HoldsAt(s, pos + 8 * OffsetAt(ByteSizes(datas), i), Padded(datas[i]))
    decreases i
  {
    hide HoldsAt, Padded, ByteSize, OffsetAt, GroupBits;
    var sizes := ByteSizes(datas);
    if i == 0 {
      assert datas[0..] == datas && OffsetAt(sizes, 0) == 0 by { NoOffset(sizes); }
    } else {
      PaddedSize(datas[i - 1]);
      GroupsHeld(s, pos, datas, i - 1);
      OffsetNext(sizes, i - 1);
      var rest := datas[i - 1..];
      assert rest[0] == datas[i - 1] && rest[1..] == datas[i..];
      GroupBitsFirst(rest);
      HoldsAtSplit(s, pos + 8 * OffsetAt(sizes, i - 1), Padded(rest[0]), GroupBits(rest[1..]));
    }
    if i < |datas| {
      assert datas[i..][0] == datas[i];
      GroupBitsFirst(datas[i..]);
      HoldsAtSplit(s, pos + 8 * OffsetAt(sizes, i), Padded(datas[i]), GroupBits(datas[i..][1..]));
    }
  }

  // ----- from the permutation flag on -----

  /** The flag that there is no permutation of the table, and zeros up to the byte boundary. */
  function TocStart(pos: nat): (b: seq<bool>)
    ensures (pos + |b|) % 8 == 0
  {
    [false] + Zeros(Padding(pos + 1))
  }

  method WriteTocStart(output: BitWriter)
    requires output.Valid()
    modifies output
    ensures output.Valid() && output.Contents() == old(output.Contents()) + TocStart(|old(output.Contents())|)
  {
    hide BitWriter.Valid, BitWriter.Contents, Padding;
    OneBit();
    output.Write(1, 0);
    output.ZeroPadToByte();
    assert [false] + Zeros(Padding(|old(output.Contents())| + 1)) == TocStart(|old(output.Contents())|);
  }

  lemma OneBit()
    ensures FromNat(0, 1) == [false] && 0 < Pow2(1)
  {
  }

  /** `AssembleFrame` behind the frame header. */
  method AssembleBody(groups: seq<seq<BitWriter>>, output: BitWriter, ghost parts: seq<seq<seq<bool>>>)
    requires output.Valid() && GroupsHold(groups, parts, output) && SizesFit(Datas(parts))
    modifies output
    ensures output.Valid()
    ensures output.Contents() ==
            old(output.Contents()) + (TocStart(|old(output.Contents())|) + FrameBody(Datas(parts)))
  {
    hide BitWriter.Contents, SizesFit, FrameBody, Datas;
    ghost var start := output.Contents();
    WriteTocStart(output);
    AssembleGroups(groups, output, parts);
    Associative(start, TocStart(|start|), FrameBody(Datas(parts)));
  }
}
