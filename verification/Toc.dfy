/** The decoder's table of contents (lib/jxl/toc.cc:23-99) on any stream, and on what `AssembleFrame` writes. */
module TocReading {
  import opened Bits
  import opened BitReading
  import opened BitWriting
  import opened FrameAssembly
  import opened UintConfigs
  import opened Lehmer
  import opened Sums
  import opened Sequences

  const MAX_TOC_ENTRIES: nat := 65536

  /** Two bits for the variant and ten for the cheapest one. */
  const MIN_ENTRY_BITS: nat := 12

  // ----- one entry -----

  datatype Entry = Entry(size: nat, end: nat)

  /** `U32Coder::Read` with `kTocDist`. */
  function EntryAt(s: seq<bool>, pos: nat): (e: Entry)
    ensures pos + MIN_ENTRY_BITS <= e.end
  {
    var (count, offset) := TocVariant(NumberAt(s, pos, 2));
    Entry(NumberAt(s, pos + 2, count) + offset, pos + 2 + count)
  }

  lemma NumberBound(s: seq<bool>, pos: nat, n: nat)
    ensures NumberAt(s, pos, n) < Pow2(n)
  {
    ToNatBound(Stream(s, pos, n));
  }

  lemma NumberHeld(s: seq<bool>, pos: nat, n: nat)
    requires pos + n <= |s|
    ensures HoldsAt(s, pos, FromNat(NumberAt(s, pos, n), n))
  {
    FromNatToNat(Stream(s, pos, n));
    assert Stream(s, pos, n) == s[pos..pos + n];
  }

  /** The variants have no size in common, so the selector is known from the size. */
  lemma VariantOf(selector: nat, v: nat)
    requires selector < 4 && v < Pow2(TocVariant(selector).0)
    ensures v + TocVariant(selector).1 < TOC_LIMIT && TocSelector(v + TocVariant(selector).1) == selector
  {
    Pow2Small();
    Pow2Large();
    assert selector == 0 || selector == 1 || selector == 2 || selector == 3;
  }

  lemma HoldsAtJoin(s: seq<bool>, pos: nat, a: seq<bool>, b: seq<bool>)
    requires HoldsAt(s, pos, a) && HoldsAt(s, pos + |a|, b)
    ensures HoldsAt(s, pos, a + b)
  {
    var t := s[pos..pos + |a + b|];
    assert t[..|a|] == a && t[|a|..] == b;
    assert t == t[..|a|] + t[|a|..];
  }

  lemma SelectorBound(s: seq<bool>, pos: nat)
    ensures NumberAt(s, pos, 2) < 4
  {
    NumberBound(s, pos, 2);
    Pow2Small();
  }

  /** Any bits are an entry of some size. */
  lemma EntryBound(s: seq<bool>, pos: nat)
    ensures var e := EntryAt(s, pos); e.size < TOC_LIMIT && e.end == pos + |TocBits(e.size)|
    ensures EntryAt(s, pos).end <= |s| ==> HoldsAt(s, pos, TocBits(EntryAt(s, pos).size))
  {
    hide FromNat, Pow2, NumberAt, HoldsAt, TocVariant, TocSelector;
    var selector := NumberAt(s, pos, 2);
    var (count, offset) := TocVariant(selector);
    var v := NumberAt(s, pos + 2, count);
    SelectorBound(s, pos);
    NumberBound(s, pos + 2, count);
    VariantOf(selector, v);
    assert TocBits(v + offset) == FromNat(selector, 2) + FromNat(v, count);
    if pos + 2 + count <= |s| {
      NumberHeld(s, pos, 2);
      NumberHeld(s, pos + 2, count);
      HoldsAtJoin(s, pos, FromNat(selector, 2), FromNat(v, count));
    }
  }

  lemma EntryHeld(s: seq<bool>, pos: nat, sz: nat)
    requires sz < TOC_LIMIT && HoldsAt(s, pos, TocBits(sz))
    ensures EntryAt(s, pos) == Entry(sz, pos + |TocBits(sz)|)
  {
    TocFits(sz);
    hide FromNat, Pow2, NumberAt, HoldsAt;
    var (count, offset) := TocVariant(TocSelector(sz));
    HoldsAtSplit(s, pos, FromNat(TocSelector(sz), 2), FromNat(sz - offset, count));
    HeldNumber(s, pos, TocSelector(sz), 2);
    HeldNumber(s, pos + 2, sz - offset, count);
  }

  // ----- the table -----

  datatype Table = Table(sizes: seq<nat>, end: nat)

  function TableAt(s: seq<bool>, pos: nat, n: nat): (t: Table)
    ensures |t.sizes| == n && pos + MIN_ENTRY_BITS * n <= t.end
  {
    if n == 0 then Table([], pos)
    else
      var before := TableAt(s, pos, n - 1);
      var e := EntryAt(s, before.end);
      Table(before.sizes + [e.size], e.end)
  }

  ghost predicate AreSizes(sizes: seq<nat>) {
    forall k | 0 <= k < |sizes| :: sizes[k] < TOC_LIMIT
  }

  /** Any bits are the table of some sizes. */
  lemma {:induction false} TableBound(s: seq<bool>, pos: nat, n: nat)
    ensures var t := TableAt(s, pos, n);
            AreSizes(t.sizes) && t.end == pos + |TocTable(t.sizes)| &&
            (t.end <= |s| ==> HoldsAt(s, pos, TocTable(t.sizes)))
  {
    hide HoldsAt, TocBits, TocTable, EntryAt;
    if n == 0 {
      EmptyTable(s, pos);
    } else {
      TableBound(s, pos, n - 1);
      var before := TableAt(s, pos, n - 1);
      TableNext(s, pos, before.sizes, before.end);
    }
  }

  lemma EmptyTable(s: seq<bool>, pos: nat)
    ensures TocTable([]) == [] && (pos <= |s| ==> HoldsAt(s, pos, []))
  {
  }

  lemma TableNext(s: seq<bool>, pos: nat, sizes: seq<nat>, end: nat)
    requires AreSizes(sizes) && end == pos + |TocTable(sizes)| && (end <= |s| ==> HoldsAt(s, pos, TocTable(sizes)))
    ensures var e := EntryAt(s, end);
            AreSizes(sizes + [e.size]) && e.end == pos + |TocTable(sizes + [e.size])| &&
            (e.end <= |s| ==> HoldsAt(s, pos, TocTable(sizes + [e.size])))
  {
    hide HoldsAt, TocBits, TocTable, EntryAt;
    var e := EntryAt(s, end);
    EntryBound(s, end);
    TocTableAppend(sizes, e.size);
    if e.end <= |s| {
      HoldsAtJoin(s, pos, TocTable(sizes), TocBits(e.size));
    }
  }

  lemma {:induction false} TableHeld(s: seq<bool>, pos: nat, sizes: seq<nat>)
    requires AreSizes(sizes) && HoldsAt(s, pos, TocTable(sizes))
    ensures TableAt(s, pos, |sizes|) == Table(sizes, pos + |TocTable(sizes)|)
    decreases |sizes|
  {
    hide HoldsAt, TocBits, TocTable, EntryAt;
    if sizes == [] {
      EmptyTable(s, pos);
    } else {
      var before, last := sizes[..|sizes| - 1], sizes[|sizes| - 1];
      LastHeld(s, pos, sizes, before, last);
      TableHeld(s, pos, before);
    }
  }

  lemma LastHeld(s: seq<bool>, pos: nat, sizes: seq<nat>, before: seq<nat>, last: nat)
    requires AreSizes(sizes) && HoldsAt(s, pos, TocTable(sizes)) && sizes == before + [last]
    ensures AreSizes(before) && HoldsAt(s, pos, TocTable(before))
    ensures EntryAt(s, pos + |TocTable(before)|) == Entry(last, pos + |TocTable(sizes)|)
  {
    assert sizes[|before|] == last && forall k | 0 <= k < |before| :: sizes[k] == before[k];
    hide HoldsAt, TocBits, TocTable, EntryAt;
    TocTableAppend(before, last);
    HoldsAtSplit(s, pos, TocTable(before), TocBits(last));
    EntryHeld(s, pos + |TocTable(before)|, last);
  }

  // ----- what is parsed -----

  datatype Toc = Toc(offsets: seq<nat>, sizes: seq<nat>, total: nat, end: nat)

  /** The two kinds of failure: the caller may come back with more bytes, or not. */
  datatype Outcome = Success(toc: Toc) | NotEnoughBytes | Invalid

  /** A permutation and where it ends in the stream. */
  datatype Decoded = Decoded(permutation: seq<nat>, end: nat)

  /** `DecodePermutation` from a position of the stream on, for a number of entries. */
  type PermutationDecoder = (seq<bool>, nat, nat) -> Option<Decoded>

  ghost predicate IsResult(d: Option<Decoded>, pos: nat, n: nat) {
    d.Some? ==> pos <= d.value.end && |d.value.permutation| == n && IsPermutation(d.value.permutation)
  }

  /** It moves forward and accepts only permutations, as `ReadPermutation` does. */
  ghost predicate IsDecoder(decode: PermutationDecoder) {
    forall s: seq<bool>, pos: nat, n: nat :: IsResult(decode(s, pos, n), pos, n)
  }

  function Offsets(sizes: seq<nat>): (offsets: seq<nat>)
    ensures |offsets| == |sizes| && forall i | 0 <= i < |sizes| :: offsets[i] == OffsetAt(sizes, i)
  {
    seq(|sizes|, i requires 0 <= i < |sizes| => OffsetAt(sizes, i))
  }

  function Permuted(values: seq<nat>, permutation: seq<nat>): (r: seq<nat>)
    requires |permutation| == |values| && forall i | 0 <= i < |values| :: permutation[i] < |values|
    ensures |r| == |values| && forall i | 0 <= i < |r| :: r[i] == values[permutation[i]]
  {
    seq(|values|, i requires 0 <= i < |values| => values[permutation[i]])
  }

  function ParseTable(s: seq<bool>, pos: nat, n: nat, permutation: seq<nat>): Outcome
    requires |permutation| == n && forall i | 0 <= i < n :: permutation[i] < n
  {
    var start := pos + Padding(pos);
    if NumberAt(s, pos, Padding(pos)) != 0 then Invalid
    else if start + MIN_ENTRY_BITS * n > |s| then NotEnoughBytes
    else
      var t := TableAt(s, start, n);
      var end := t.end + Padding(t.end);
      if NumberAt(s, t.end, Padding(t.end)) != 0 then Invalid
      else if end > |s| then NotEnoughBytes
      else Success(Toc(Permuted(Offsets(t.sizes), permutation), Permuted(t.sizes, permutation), Sum(t.sizes), end))
  }

  /** `ReadGroupOffsets` on the bit string: an absent permutation changes nothing. */
  ghost function ParseToc(s: seq<bool>, pos: nat, n: nat, decode: PermutationDecoder): Outcome
    requires IsDecoder(decode)
  {
    if n > MAX_TOC_ENTRIES then Invalid
    else if pos >= |s| then NotEnoughBytes
    else if !s[pos] || n == 0 then ParseTable(s, pos + 1, n, Range(0, n))
    else if pos + 1 + MIN_ENTRY_BITS * n > |s| then NotEnoughBytes
    else
      assert IsResult(decode(s, pos + 1, n), pos + 1, n);
      match decode(s, pos + 1, n)
      case None => Invalid
      case Some(d) => ParseTable(s, d.end, n, d.permutation)
  }

  // ----- the groups of any accepted table -----

  lemma {:induction false} OffsetsGrow(sizes: seq<nat>, i: nat, j: nat)
    requires i <= j <= |sizes|
    ensures OffsetAt(sizes, i) <= OffsetAt(sizes, j)
    ensures i < j ==> OffsetAt(sizes, i) + sizes[i] <= OffsetAt(sizes, j)
    decreases j
  {
    if i < j {
      OffsetsGrow(sizes, i, j - 1);
      OffsetNext(sizes, j - 1);
    }
  }

  lemma {:induction false} OffsetCovers(sizes: seq<nat>, n: nat, b: nat) returns (k: nat)
    requires n <= |sizes| && b < OffsetAt(sizes, n)
    ensures k < n && OffsetAt(sizes, k) <= b < OffsetAt(sizes, k) + sizes[k]
    decreases n
  {
    NoOffset(sizes);
    OffsetNext(sizes, n - 1);
    k := n - 1;
    if b < OffsetAt(sizes, n - 1) {
      k := OffsetCovers(sizes, n - 1, b);
    }
  }

  /** The byte ranges of the groups are disjoint and cover everything up to the total. */
  ghost predicate AreTiles(toc: Toc) {
    && |toc.offsets| == |toc.sizes|
    && (forall i, j | 0 <= i < j < |toc.sizes| ::
          Precedes(toc, i, j) || Precedes(toc, j, i))
    && (forall i | 0 <= i < |toc.sizes| :: EndOf(toc, i) <= toc.total)
    && forall b: nat | b < toc.total :: IsCovered(toc, b)
  }

  function EndOf(toc: Toc, i: nat): nat
    requires i < |toc.sizes| == |toc.offsets|
  {
    toc.offsets[i] + toc.sizes[i]
  }

  predicate Precedes(toc: Toc, i: nat, j: nat)
    requires i < |toc.sizes| == |toc.offsets| && j < |toc.sizes|
  {
    EndOf(toc, i) <= toc.offsets[j]
  }

  predicate Contains(toc: Toc, i: nat, b: nat)
    requires i < |toc.sizes| == |toc.offsets|
  {
    toc.offsets[i] <= b < EndOf(toc, i)
  }

  predicate IsCovered(toc: Toc, b: nat)
    requires |toc.sizes| == |toc.offsets|
  {
    exists i :: 0 <= i < |toc.sizes| && Contains(toc, i, b)
  }

  /** Entry `i` is stored at `p[i]`. */
  ghost predicate IsPermutedToc(toc: Toc, stored: seq<nat>, p: seq<nat>) {
    && |toc.offsets| == |toc.sizes| == |p| == |stored| && IsPermutation(p) && toc.total == Sum(stored)
    && forall i | 0 <= i < |p| :: p[i] < |stored| && toc.offsets[i] == OffsetAt(stored, p[i]) &&
                                  toc.sizes[i] == stored[p[i]]
  }

  lemma PermutedApart(toc: Toc, stored: seq<nat>, p: seq<nat>, i: nat, j: nat)
    requires IsPermutedToc(toc, stored, p) && i < j < |p|
    ensures Precedes(toc, i, j) || Precedes(toc, j, i)
  {
    hide OffsetAt, Sum;
    if p[i] < p[j] {
      OffsetsGrow(stored, p[i], p[j]);
    } else {
      OffsetsGrow(stored, p[j], p[i]);
    }
  }

  lemma PermutedCovers(toc: Toc, stored: seq<nat>, p: seq<nat>, b: nat)
    requires IsPermutedToc(toc, stored, p) && b < toc.total
    ensures IsCovered(toc, b)
  {
    hide OffsetAt, Sum, IsPermutation;
    TotalIsLast(stored);
    var k := OffsetCovers(stored, |stored|, b);
    var i := PlaceIn(p, k);
    assert Contains(toc, i, b);
  }

  lemma PermutedTiles(toc: Toc, stored: seq<nat>, p: seq<nat>)
    requires IsPermutedToc(toc, stored, p)
    ensures AreTiles(toc)
  {
    hide OffsetAt, Sum, IsPermutation, Precedes, IsCovered;
    TotalIsLast(stored);
    forall i: nat, j: nat | i < j < |p| ensures Precedes(toc, i, j) || Precedes(toc, j, i) {
      PermutedApart(toc, stored, p, i, j);
    }
    forall i: nat | i < |p| ensures EndOf(toc, i) <= toc.total {
      OffsetsGrow(stored, p[i], |stored|);
    }
    forall b: nat | b < toc.total ensures IsCovered(toc, b) {
      PermutedCovers(toc, stored, p, b);
    }
  }

  lemma PlaceIn(p: seq<nat>, v: nat) returns (i: nat)
    requires IsPermutation(p) && v < |p|
    ensures i < |p| && p[i] == v
  {
    assert v in p;
    i :| 0 <= i < |p| && p[i] == v;
  }

  lemma TotalIsLast(sizes: seq<nat>)
    ensures OffsetAt(sizes, |sizes|) == Sum(sizes)
  {
    assert sizes[..|sizes|] == sizes;
  }

  /** 65536 sizes of at most 31 bits: the offsets never wrap around 2^64, so the test for it never fires. */
  lemma {:induction false} SumOfSizes(sizes: seq<nat>)
    requires AreSizes(sizes)
    ensures Sum(sizes) <= TOC_LIMIT * |sizes|
  {
    if sizes != [] {
      SumOfSizes(sizes[1..]);
    }
  }

  lemma RangeIsPermutation(n: nat)
    ensures IsPermutation(Range(0, n))
  {
    forall v: nat | v < n ensures v in Range(0, n) {
      assert Range(0, n)[v] == v;
    }
  }

  /** An accepted table in its parts. */
  lemma ParsedParts(s: seq<bool>, pos: nat, n: nat, p: seq<nat>)
    requires |p| == n && IsPermutation(p) && ParseTable(s, pos, n, p).Success?
    ensures var t := TableAt(s, pos + Padding(pos), n);
            var toc := ParseTable(s, pos, n, p).toc;
            IsPermutedToc(toc, t.sizes, p) && toc.end == t.end + Padding(t.end) <= |s|
  {
    hide NumberAt, Padding, TableAt, Sum, OffsetAt;
  }

  /** Whatever is accepted, permuted or not: one size per entry, disjoint ranges without a gap, and offsets
      far from wrapping around. */
  lemma AcceptedTiles(s: seq<bool>, pos: nat, n: nat, decode: PermutationDecoder)
    requires IsDecoder(decode) && ParseToc(s, pos, n, decode).Success?
    ensures var toc := ParseToc(s, pos, n, decode).toc;
            |toc.sizes| == n && AreTiles(toc) && toc.total < 0x1_0000_0000_0000_0000 &&
            pos < toc.end <= |s| && toc.end % 8 == 0
  {
    hide NumberAt, Padding, IsPermutation, AreTiles, TableAt, ParseTable, IsPermutedToc;
    RangeIsPermutation(n);
    assert IsResult(decode(s, pos + 1, n), pos + 1, n);
    var p := if !s[pos] || n == 0 then Decoded(Range(0, n), pos + 1) else decode(s, pos + 1, n).value;
    var start := p.end + Padding(p.end);
    var t := TableAt(s, start, n);
    ParsedParts(s, p.end, n, p.permutation);
    PermutedTiles(ParseToc(s, pos, n, decode).toc, t.sizes, p.permutation);
    PermutedSizes(ParseToc(s, pos, n, decode).toc, t.sizes, p.permutation);
    TableBound(s, start, n);
    SumOfSizes(t.sizes);
    Aligned(t.end);
  }

  lemma PermutedSizes(toc: Toc, stored: seq<nat>, p: seq<nat>)
    requires IsPermutedToc(toc, stored, p)
    ensures |toc.sizes| == |stored| && toc.total == Sum(stored)
  {
  }

  lemma Aligned(n: nat)
    ensures (n + Padding(n)) % 8 == 0
  {
  }

  // ----- exactly what is written is accepted -----

  lemma ZerosIff(s: seq<bool>, pos: nat, n: nat)
    ensures HoldsAt(s, pos, Zeros(n)) <==> NumberAt(s, pos, n) == 0 && pos + n <= |s|
  {
    if HoldsAt(s, pos, Zeros(n)) {
      assert Stream(s, pos, n) == s[pos..pos + n];
      ToNatZeros(Zeros(n));
    } else if NumberAt(s, pos, n) == 0 && pos + n <= |s| {
      NumberHeld(s, pos, n);
      FromNatZero(n);
    }
  }

  lemma {:induction false} FromNatZero(n: nat)
    ensures FromNat(0, n) == Zeros(n)
  {
    if n > 0 {
      FromNatZero(n - 1);
    }
  }

  /** Flag, padding, table and padding. */
  function TocBytes(pos: nat, sizes: seq<nat>): seq<bool>
    requires AreSizes(sizes)
  {
    TocStart(pos) + Padded(TocTable(sizes))
  }

  lemma PermutedByRange(values: seq<nat>)
    ensures Permuted(values, Range(0, |values|)) == values
  {
  }

  /** What follows the flag. */
  function TocRest(pos: nat, sizes: seq<nat>): seq<bool>
    requires AreSizes(sizes)
  {
    Zeros(Padding(pos)) + Padded(TocTable(sizes))
  }

  lemma RestHeld(s: seq<bool>, pos: nat, sizes: seq<nat>)
    requires AreSizes(sizes)
    ensures var start, n := pos + Padding(pos), |TocTable(sizes)|;
            (HoldsAt(s, pos, TocRest(pos, sizes)) <==>
             HoldsAt(s, pos, Zeros(Padding(pos))) && HoldsAt(s, start, TocTable(sizes))
             && HoldsAt(s, start + n, Zeros(Padding(start + n)))) &&
            |TocRest(pos, sizes)| == Padding(pos) + n + Padding(start + n)
  {
    hide HoldsAt, Padding, TocTable;
    var start, table := pos + Padding(pos), TocTable(sizes);
    Aligned(pos);
    PaddingShift(start, |table|);
    ThreeHeld(s, pos, Zeros(Padding(pos)), table, Zeros(Padding(|table|)));
  }

  lemma ThreeHeld(s: seq<bool>, pos: nat, a: seq<bool>, b: seq<bool>, c: seq<bool>)
    ensures HoldsAt(s, pos, a + (b + c)) <==>
            HoldsAt(s, pos, a) && HoldsAt(s, pos + |a|, b) && HoldsAt(s, pos + |a| + |b|, c)
  {
    hide HoldsAt;
    if HoldsAt(s, pos, a + (b + c)) {
      HoldsAtSplit(s, pos, a, b + c);
      HoldsAtSplit(s, pos + |a|, b, c);
    }
    if HoldsAt(s, pos, a) && HoldsAt(s, pos + |a|, b) && HoldsAt(s, pos + |a| + |b|, c) {
      HoldsAtJoin(s, pos + |a|, b, c);
      HoldsAtJoin(s, pos, a, b + c);
    }
  }

  /** What the reader gets from such a table and a permutation. */
  function PermutedToc(sizes: seq<nat>, p: seq<nat>, end: nat): Outcome
    requires |p| == |sizes| && forall i | 0 <= i < |p| :: p[i] < |p|
  {
    Success(Toc(Permuted(Offsets(sizes), p), Permuted(sizes, p), Sum(sizes), end))
  }

  /** Without a permutation. */
  function TocOf(sizes: seq<nat>, end: nat): Outcome {
    Success(Toc(Offsets(sizes), sizes, Sum(sizes), end))
  }

  lemma NotPermuted(sizes: seq<nat>, end: nat)
    ensures PermutedToc(sizes, Range(0, |sizes|), end) == TocOf(sizes, end)
  {
    PermutedByRange(Offsets(sizes));
    PermutedByRange(sizes);
  }

  /** What makes the reader accept. */
  ghost predicate IsAcceptable(s: seq<bool>, pos: nat, t: Table) {
    && NumberAt(s, pos, Padding(pos)) == 0 && NumberAt(s, t.end, Padding(t.end)) == 0
    && t.end + Padding(t.end) <= |s|
  }

  lemma AcceptableIff(s: seq<bool>, pos: nat, n: nat, p: seq<nat>)
    requires |p| == n && forall i | 0 <= i < n :: p[i] < n
    ensures var t := TableAt(s, pos + Padding(pos), n);
            (ParseTable(s, pos, n, p).Success? <==> IsAcceptable(s, pos, t)) &&
            (IsAcceptable(s, pos, t) ==> ParseTable(s, pos, n, p) == PermutedToc(t.sizes, p, t.end + Padding(t.end)))
  {
    hide NumberAt, Padding, TableAt, Sum, OffsetAt;
  }

  lemma RestParsed(s: seq<bool>, pos: nat, sizes: seq<nat>, p: seq<nat>)
    requires AreSizes(sizes) && HoldsAt(s, pos, TocRest(pos, sizes))
    requires |p| == |sizes| && forall i | 0 <= i < |p| :: p[i] < |p|
    ensures ParseTable(s, pos, |sizes|, p) == PermutedToc(sizes, p, pos + |TocRest(pos, sizes)|)
  {
    hide HoldsAt, NumberAt, Padding, TocTable, TableAt, TocRest, PermutedToc, ParseTable;
    RestHeld(s, pos, sizes);
    var start := pos + Padding(pos);
    TableHeld(s, start, sizes);
    var end := TableAt(s, start, |sizes|).end;
    ZerosIff(s, pos, Padding(pos));
    ZerosIff(s, end, Padding(end));
    AcceptableIff(s, pos, |sizes|, p);
  }

  lemma ParsedRest(s: seq<bool>, pos: nat, n: nat, p: seq<nat>)
    requires |p| == n && (forall i | 0 <= i < n :: p[i] < n) && ParseTable(s, pos, n, p).Success?
    ensures var t := TableAt(s, pos + Padding(pos), n);
            AreSizes(t.sizes) && HoldsAt(s, pos, TocRest(pos, t.sizes)) &&
            ParseTable(s, pos, n, p).toc.sizes == Permuted(t.sizes, p)
  {
    hide HoldsAt, NumberAt, Padding, TocTable, TableAt, TocRest, ParseTable, Permuted, Offsets, Sum;
    var t := TableAt(s, pos + Padding(pos), n);
    AcceptableIff(s, pos, n, p);
    TableBound(s, pos + Padding(pos), n);
    RestHeld(s, pos, t.sizes);
    ZerosIff(s, pos, Padding(pos));
    ZerosIff(s, t.end, Padding(t.end));
  }

  /** Behind the flag, and behind a permutation if there is one, the stream holds zeros up to a byte boundary,
      the table of the sizes, and zeros again. */
  ghost predicate HoldsToc(s: seq<bool>, pos: nat, n: nat, decode: PermutationDecoder, stored: seq<nat>, d: Decoded) {
    && |stored| == n <= MAX_TOC_ENTRIES && AreSizes(stored) && pos < |s|
    && HoldsAt(s, d.end, TocRest(d.end, stored))
    && if s[pos] && n > 0 then pos + 1 + MIN_ENTRY_BITS * n <= |s| && decode(s, pos + 1, n) == Some(d)
       else d == Decoded(Range(0, n), pos + 1)
  }

  lemma HeldIsParsed(s: seq<bool>, pos: nat, n: nat, decode: PermutationDecoder, stored: seq<nat>, d: Decoded)
    requires IsDecoder(decode) && HoldsToc(s, pos, n, decode, stored, d)
    ensures |d.permutation| == n && IsPermutation(d.permutation)
    ensures ParseToc(s, pos, n, decode) == PermutedToc(stored, d.permutation, d.end + |TocRest(d.end, stored)|)
  {
    hide HoldsAt, TocRest, ParseTable, PermutedToc, IsPermutation;
    RangeIsPermutation(n);
    assert IsResult(decode(s, pos + 1, n), pos + 1, n);
    assert |d.permutation| == n && IsPermutation(d.permutation);
    InRange(d.permutation);
    RestParsed(s, d.end, stored, d.permutation);
  }

  lemma InRange(p: seq<nat>)
    requires IsPermutation(p)
    ensures forall i | 0 <= i < |p| :: p[i] < |p|
  {
  }

  lemma ParsedIsHeld(s: seq<bool>, pos: nat, n: nat, decode: PermutationDecoder)
    returns (stored: seq<nat>, d: Decoded)
    requires IsDecoder(decode) && ParseToc(s, pos, n, decode).Success?
    ensures HoldsToc(s, pos, n, decode, stored, d)
  {
    hide HoldsAt, TocRest, ParseTable, IsPermutation, TableAt, Padding;
    RangeIsPermutation(n);
    assert IsResult(decode(s, pos + 1, n), pos + 1, n);
    d := if !s[pos] || n == 0 then Decoded(Range(0, n), pos + 1) else decode(s, pos + 1, n).value;
    InRange(d.permutation);
    stored := TableAt(s, d.end + Padding(d.end), n).sizes;
    ParsedRest(s, d.end, n, d.permutation);
  }

  /** Exactly the streams that hold a table are accepted, and the sizes in it are put in the order of the
      permutation. */
  lemma AcceptedIff(s: seq<bool>, pos: nat, n: nat, decode: PermutationDecoder)
    requires IsDecoder(decode)
    ensures ParseToc(s, pos, n, decode).Success? <==>
            exists stored: seq<nat>, d: Decoded :: HoldsToc(s, pos, n, decode, stored, d)
    ensures forall stored: seq<nat>, d: Decoded | HoldsToc(s, pos, n, decode, stored, d) ::
              |d.permutation| == n && IsPermutation(d.permutation) &&
              ParseToc(s, pos, n, decode) == PermutedToc(stored, d.permutation, d.end + |TocRest(d.end, stored)|)
  {
    hide ParseToc, HoldsAt, TocRest;
    forall stored: seq<nat>, d: Decoded | HoldsToc(s, pos, n, decode, stored, d)
      ensures |d.permutation| == n && IsPermutation(d.permutation)
      ensures ParseToc(s, pos, n, decode) == PermutedToc(stored, d.permutation, d.end + |TocRest(d.end, stored)|)
    {
      HeldIsParsed(s, pos, n, decode, stored, d);
    }
    if ParseToc(s, pos, n, decode).Success? {
      var stored, d := ParsedIsHeld(s, pos, n, decode);
    }
  }

  lemma FlagIff(s: seq<bool>, pos: nat, rest: seq<bool>)
    ensures HoldsAt(s, pos, [false] + rest) <==> pos < |s| && !s[pos] && HoldsAt(s, pos + 1, rest)
  {
    if HoldsAt(s, pos, [false] + rest) {
      HoldsAtSplit(s, pos, [false], rest);
      assert s[pos..pos + 1][0] == s[pos];
    }
    if pos < |s| && !s[pos] && HoldsAt(s, pos + 1, rest) {
      assert s[pos..pos + 1] == [false];
      HoldsAtJoin(s, pos, [false], rest);
    }
  }

  /** Without a permutation, the reader accepts a table for these sizes if and only if the stream holds
      exactly what `AssembleFrame` writes for them. */
  lemma WrittenIff(s: seq<bool>, pos: nat, sizes: seq<nat>, decode: PermutationDecoder)
    requires IsDecoder(decode) && AreSizes(sizes) && |sizes| <= MAX_TOC_ENTRIES
    ensures var outcome := ParseToc(s, pos, |sizes|, decode);
            (HoldsAt(s, pos, TocBytes(pos, sizes)) <==>
             pos < |s| && !s[pos] && outcome.Success? && outcome.toc.sizes == sizes) &&
            (HoldsAt(s, pos, TocBytes(pos, sizes)) ==> outcome == TocOf(sizes, pos + |TocBytes(pos, sizes)|))
  {
    hide HoldsAt, ParseTable, Padding, TocTable, Sum, IsDecoder, TocRest, Offsets, PermutedToc, TableAt;
    var n := |sizes|;
    TocBytesAre(pos, sizes);
    FlagIff(s, pos, TocRest(pos + 1, sizes));
    if HoldsAt(s, pos + 1, TocRest(pos + 1, sizes)) {
      RestParsed(s, pos + 1, sizes, Range(0, n));
      NotPermuted(sizes, pos + 1 + |TocRest(pos + 1, sizes)|);
    }
    if ParseTable(s, pos + 1, n, Range(0, n)).Success? {
      ParsedRest(s, pos + 1, n, Range(0, n));
      PermutedByRange(TableAt(s, pos + 1 + Padding(pos + 1), n).sizes);
    }
  }

  lemma TocBytesAre(pos: nat, sizes: seq<nat>)
    requires AreSizes(sizes)
    ensures TocBytes(pos, sizes) == [false] + TocRest(pos + 1, sizes)
  {
    Associative([false], Zeros(Padding(pos + 1)), Padded(TocTable(sizes)));
    hide Padded, TocTable, Padding;
  }

  /** What `AssembleFrame` writes from the flag on leads the reader to the first bit of every group. */
  lemma AssembledIsParsed(s: seq<bool>, pos: nat, datas: seq<seq<bool>>, decode: PermutationDecoder)
    requires IsDecoder(decode) && SizesFit(datas) && |datas| <= MAX_TOC_ENTRIES
    requires HoldsAt(s, pos, TocStart(pos) + FrameBody(datas))
    ensures ParseToc(s, pos, |datas|, decode).Success? && LeadsTo(s, ParseToc(s, pos, |datas|, decode).toc, datas)
  {
    hide HoldsAt, ParseToc, TocBytes, IsDecoder, OffsetAt, GroupBits, LeadsTo, TocStart, FrameBody;
    BodyHeld(s, pos, datas);
    WrittenIff(s, pos, ByteSizes(datas), decode);
    LedTo(s, pos + |TocBytes(pos, ByteSizes(datas))|, datas);
  }

  /** Sizes in bytes, and every group at its offset. */
  ghost predicate LeadsTo(s: seq<bool>, toc: Toc, datas: seq<seq<bool>>) {
    && toc.sizes == ByteSizes(datas) && |toc.offsets| == |datas|
    && forall i | 0 <= i < |datas| :: HoldsAt(s, toc.end + 8 * toc.offsets[i], Padded(datas[i]))
  }

  lemma BodyHeld(s: seq<bool>, pos: nat, datas: seq<seq<bool>>)
    requires SizesFit(datas) && HoldsAt(s, pos, TocStart(pos) + FrameBody(datas))
    ensures AreSizes(ByteSizes(datas)) && HoldsAt(s, pos, TocBytes(pos, ByteSizes(datas)))
    ensures HoldsAt(s, pos + |TocBytes(pos, ByteSizes(datas))|, GroupBits(datas))
  {
    hide HoldsAt, Padded, TocTable, GroupBits, TocStart, ByteSize;
    var sizes := ByteSizes(datas);
    Associative(TocStart(pos), Padded(TocTable(sizes)), GroupBits(datas));
    HoldsAtSplit(s, pos, TocBytes(pos, sizes), GroupBits(datas));
  }

  lemma LedTo(s: seq<bool>, end: nat, datas: seq<seq<bool>>)
    requires HoldsAt(s, end, GroupBits(datas))
    ensures TocOf(ByteSizes(datas), end).Success? && LeadsTo(s, TocOf(ByteSizes(datas), end).toc, datas)
  {
    hide HoldsAt, GroupBits, OffsetAt, Sum, Padded, ByteSize;
    forall i: nat | i < |datas| ensures HoldsAt(s, end + 8 * OffsetAt(ByteSizes(datas), i), Padded(datas[i])) {
      GroupsHeld(s, end, datas, i);
    }
  }

  // ----- the reader -----

  /** `check_bit_budget`. */
  method CheckBitBudget(r: BitReader, numEntries: nat) returns (ok: bool)
    requires r.Valid()
    ensures ok <==> r.Position() + MIN_ENTRY_BITS * numEntries <= 8 * |r.data|
  {
    var expenses := r.TotalBitsConsumed();
    ok := expenses <= 8 * |r.data| && numEntries * MIN_ENTRY_BITS <= 8 * |r.data| - expenses;
  }

  method ReadToc(r: BitReader, n: nat) returns (sizes: seq<nat>)
    requires r.Valid()
    modifies r
    ensures r.Valid() && Table(sizes, r.Position()) == TableAt(ToBits(r.data), old(r.Position()), n)
  {
    hide NumberAt, ToBits;
    sizes := [];
    for i := 0 to n
      invariant r.Valid() && Table(sizes, r.Position()) == TableAt(ToBits(r.data), old(r.Position()), i)
    {
      var selector := r.ReadBits(2);
      var variant := TocVariant(selector);
      var v := r.ReadBits(variant.0);
      sizes := sizes + [v + variant.1];
    }
  }

  /** Prefix sums from 0 on, and the sum of all. */
  method PrefixSums(sizes: seq<nat>) returns (offsets: seq<nat>, total: nat)
    ensures offsets == Offsets(sizes) && total == Sum(sizes)
  {
    hide Sum;
    offsets, total := [], 0;
    assert OffsetAt(sizes, 0) == 0 by { NoOffset(sizes); }
    hide OffsetAt;
    for i := 0 to |sizes|
      invariant offsets == Offsets(sizes)[..i] && total == OffsetAt(sizes, i)
    {
      offsets := offsets + [total];
      OffsetNext(sizes, i);
      total := total + sizes[i];
    }
    TotalIsLast(sizes);
  }

  method Permute(offsets: seq<nat>, sizes: seq<nat>, permutation: seq<nat>)
    returns (permutedOffsets: seq<nat>, permutedSizes: seq<nat>)
    requires |offsets| == |sizes| == |permutation|
    requires forall i | 0 <= i < |permutation| :: permutation[i] < |permutation|
    ensures permutedOffsets == Permuted(offsets, permutation) && permutedSizes == Permuted(sizes, permutation)
  {
    permutedOffsets, permutedSizes := [], [];
    for i := 0 to |permutation|
      invariant permutedOffsets == Permuted(offsets, permutation)[..i]
      invariant permutedSizes == Permuted(sizes, permutation)[..i]
    {
      permutedOffsets := permutedOffsets + [offsets[permutation[i]]];
      permutedSizes := permutedSizes + [sizes[permutation[i]]];
    }
  }

  /** `ReadGroupOffsets` behind the permutation, which is empty if there is none. */
  method ReadTable(r: BitReader, n: nat, permutation: seq<nat>) returns (outcome: Outcome)
    requires r.Valid()
    requires permutation == [] || (|permutation| == n && forall i | 0 <= i < n :: permutation[i] < n)
    modifies r
    ensures r.Valid() && (outcome.Success? ==> r.Position() == outcome.toc.end)
    ensures outcome == ParseTable(ToBits(r.data), old(r.Position()), n,
                                  if permutation == [] then Range(0, n) else permutation)
  {
    hide NumberAt, ToBits, Padding, TableAt, Sum, OffsetAt;
    var aligned := r.JumpToByteBoundary();
    if !aligned {
      return Invalid;
    }
    var enough := CheckBitBudget(r, n);
    if !enough {
      return NotEnoughBytes;
    }
    var sizes := ReadToc(r, n);
    aligned := r.JumpToByteBoundary();
    if !aligned {
      return Invalid;
    }
    enough := CheckBitBudget(r, 0);
    if !enough {
      return NotEnoughBytes;
    }
    var offsets, total := PrefixSums(sizes);
    PermutedByRange(offsets);
    PermutedByRange(sizes);
    if permutation != [] {
      offsets, sizes := Permute(offsets, sizes, permutation);
    }
    return Success(Toc(offsets, sizes, total, r.TotalBitsConsumed()));
  }

  /** The reader behind what a decoder has consumed. */
  method ReadUpTo(r: BitReader, end: nat)
    requires r.Valid() && r.Position() <= end
    modifies r
    ensures r.Valid() && r.Position() == end
  {
    hide NumberAt, ToBits;
    while r.TotalBitsConsumed() < end
      invariant r.Valid() && r.Position() <= end
      decreases end - r.TotalBitsConsumed()
    {
      var _ := r.ReadBits(Min(56, end - r.TotalBitsConsumed()));
    }
  }

  lemma FlagRead(s: seq<bool>, pos: nat)
    requires pos < |s|
    ensures NumberAt(s, pos, 1) == 1 <==> s[pos]
  {
    var b := Stream(s, pos, 1);
    assert b[0] == s[pos] && b[1..] == [];
    assert ToNat(b[1..]) == 0;
  }

  /** `ReadGroupOffsets` for any stream, with `DecodePermutation` as a parameter: on success the reader is
      behind the table. */
  method ReadGroupOffsets(r: BitReader, tocEntries: nat, decode: PermutationDecoder) returns (outcome: Outcome)
    requires r.Valid() && IsDecoder(decode)
    modifies r
    ensures r.Valid() && (outcome.Success? ==> r.Position() == outcome.toc.end)
    ensures outcome == ParseToc(ToBits(r.data), old(r.Position()), tocEntries, decode)
  {
    hide NumberAt, ParseTable;
    if tocEntries > MAX_TOC_ENTRIES {
      return Invalid;
    }
    if r.TotalBitsConsumed() >= 8 * |r.data| {
      return NotEnoughBytes;
    }
    FlagRead(ToBits(r.data), r.Position());
    hide ToBits;
    var flag := r.ReadBits(1);
    var permutation := [];
    if flag == 1 && tocEntries > 0 {
      var enough := CheckBitBudget(r, tocEntries);
      if !enough {
        return NotEnoughBytes;
      }
      var decoded := decode(ToBits(r.data), r.TotalBitsConsumed(), tocEntries);
      assert IsResult(decoded, r.Position(), tocEntries);
      if decoded.None? {
        return Invalid;
      }
      permutation := decoded.value.permutation;
      ReadUpTo(r, decoded.value.end);
    }
    outcome := ReadTable(r, tocEntries, permutation);
  }
}
