/** The bit writer of the fast lossless encoder (experimental/fast_lossless/fast_lossless.cc:23-50,
272-297) as a refinement of appending to a bit sequence, with no alignment visible.
 */
module BitWriting {
  import opened Bits
  import opened BitReading

  /** A register in memory order. */
  function BytesOf(w: Word64): (b: seq<Byte>)
    ensures |b| == 8
  {
    seq(8, i requires 0 <= i < 8 => ByteAt(w, i))
  }

  function ByteAt(w: Word64, i: nat): Byte
    requires i < 8
  {
    ToNatBound(w[8 * i..8 * i + 8]);
    Pow2Small();
    ToNat(w[8 * i..8 * i + 8])
  }

  lemma ByteAtBits(w: Word64, i: nat)
    requires i < 8
    ensures FromNat(ByteAt(w, i), 8) == w[8 * i..8 * i + 8]
  {
    FromNatToNat(w[8 * i..8 * i + 8]);
  }

  lemma BytesOfPrefix(w: Word64, n: nat)
    requires n <= 8
    ensures ToBits(BytesOf(w)[..n]) == w[..8 * n]
    decreases n
  {
    if n > 0 {
      BytesOfPrefix(w, n - 1);
      var init, last := BytesOf(w)[..n - 1], ByteAt(w, n - 1);
      assert BytesOf(w)[..n] == init + [last];
      ToBitsConcat(init, [last]);
      ToBitsSingle(last);
      ByteAtBits(w, n - 1);
      assert w[..8 * n] == w[..8 * (n - 1)] + w[8 * (n - 1)..8 * (n - 1) + 8];
    }
  }

  lemma ToBitsSingle(b: Byte)
    ensures ToBits([b]) == FromNat(b, 8)
  {
    assert [b][1..] == [];
    assert ToBits([b]) == FromNat(b, 8) + [];
  }

  /** The 8-byte `memcpy` at byte `at`. */
  function StoreLE64(data: seq<Byte>, at: nat, w: Word64): (d: seq<Byte>)
    requires at <= |data|
    ensures |d| >= at + 8 && d[..at] == data[..at] && d[at..at + 8] == BytesOf(w)
  {
    data[..at] + BytesOf(w) + (if at + 8 <= |data| then data[at + 8..] else [])
  }

  /** All bits from `n` on are clear. */
  predicate FitsIn(w: Word64, n: nat) {
    forall k | n <= k < 64 :: !w[k]
  }

  lemma {:induction false} FromNatFits(v: nat, n: nat, k: nat, m: nat)
    requires v < Pow2(n) && n <= k < m
    ensures !FromNat(v, m)[k]
    decreases k
  {
    if k > 0 {
      if n > 0 {
        FromNatFits(v / 2, n - 1, k - 1, m - 1);
      } else {
        FromNatFits(v / 2, 0, k - 1, m - 1);
      }
    }
  }

  lemma WordOfNat(v: nat, n: nat)
    requires n <= 64 && v < Pow2(n)
    ensures FitsIn(FromNat(v, 64), n) && FromNat(v, 64)[..n] == FromNat(v, n)
  {
    forall k | n <= k < 64 ensures !FromNat(v, 64)[k] {
      FromNatFits(v, n, k, 64);
    }
    FromNatPrefix(v, n, 64);
  }

  lemma OrConcatenates(buf: Word64, n: nat, w: Word64, m: nat)
    requires n + m < 64 && FitsIn(buf, n) && FitsIn(w, m)
    ensures FitsIn(Or(buf, ShiftLeft(w, n)), n + m)
    ensures Or(buf, ShiftLeft(w, n))[..n + m] == buf[..n] + w[..m]
  {
  }

  lemma ShiftRightDrops(w: Word64, n: nat, m: nat)
    requires n <= m < 64 && FitsIn(w, m)
    ensures FitsIn(ShiftRight(w, n), m - n)
    ensures ShiftRight(w, n)[..m - n] == w[n..m]
  {
  }

  class BitWriter {
    var data: seq<Byte>
    var bytesWritten: nat
    var bitsInBuffer: nat
    var buffer: Word64

    ghost predicate Valid()
      reads this
    {
      bytesWritten <= |data| && bitsInBuffer < 8 && FitsIn(buffer, bitsInBuffer)
    }

    /** The bits written so far. */
    ghost function Contents(): (b: seq<bool>)
      reads this
      requires Valid()
      ensures |b| == 8 * bytesWritten + bitsInBuffer
    {
      ToBits(data[..bytesWritten]) + buffer[..bitsInBuffer]
    }

    constructor ()
      ensures Valid() && Contents() == []
    {
      data, bytesWritten, bitsInBuffer, buffer := [], 0, 0, Zeros(64);
    }

    /** Appends the low `count` bits of `bits`. */
    method Write(count: nat, bits: nat)
      requires Valid() && count <= 56 && bits < Pow2(count)
      modifies this
      ensures Valid() && Contents() == old(Contents()) + FromNat(bits, count)
    {
      WordOfNat(bits, count);
      OrConcatenates(buffer, bitsInBuffer, FromNat(bits, 64), count);
      buffer := Or(buffer, ShiftLeft(FromNat(bits, 64), bitsInBuffer));
      bitsInBuffer := bitsInBuffer + count;
      Flush();
    }

    /** Moves whole bytes from the register to memory. */
    method Flush()
      requires bytesWritten <= |data| && bitsInBuffer < 64 && FitsIn(buffer, bitsInBuffer)
      modifies this
      ensures Valid()
      ensures Contents() == ToBits(old(data)[..old(bytesWritten)]) + old(buffer)[..old(bitsInBuffer)]
    {
      data := StoreLE64(data, bytesWritten, buffer);
      var bytesInBuffer := bitsInBuffer / 8;
      ghost var taken := BytesOf(buffer)[..bytesInBuffer];
      assert data[..bytesWritten + bytesInBuffer] == old(data)[..bytesWritten] + taken;
      ToBitsConcat(old(data)[..bytesWritten], taken);
      BytesOfPrefix(buffer, bytesInBuffer);
      ShiftRightDrops(buffer, bytesInBuffer * 8, bitsInBuffer);
      bitsInBuffer := bitsInBuffer - bytesInBuffer * 8;
      buffer := ShiftRight(buffer, bytesInBuffer * 8);
      bytesWritten := bytesWritten + bytesInBuffer;
    }

    /** Pads with the fewest zero bits that complete a byte. */
    method ZeroPadToByte()
      requires Valid()
      modifies this
      ensures Valid() && bitsInBuffer == 0
      ensures Contents() == old(Contents()) + Zeros(Padding(|old(Contents())|))
      ensures Contents() == ToBits(data[..bytesWritten])
    {
      hide FitsIn, Pow2, FromNat;
      PaddingShift(8 * bytesWritten, bitsInBuffer);
      PaddingCases(bitsInBuffer);
      if bitsInBuffer != 0 {
        ghost var padding: nat := 8 - bitsInBuffer;
        Write(8 - bitsInBuffer, 0);
        FromNatZero(padding);
      }
    }
  }

  lemma {:induction false} FromNatZero(n: nat)
    ensures FromNat(0, n) == Zeros(n)
    decreases n
  {
    if n > 0 {
      FromNatZero(n - 1);
      assert Zeros(n) == [false] + Zeros(n - 1);
    }
  }

  /** Copies one 8-byte chunk at a bit offset: nothing is lost between two registers. */
  lemma ChunkStep(buf: Word64, n: nat, chunk: Word64)
    requires 0 < n < 8 && FitsIn(buf, n)
    ensures var out := Or(buf, ShiftLeft(chunk, n));
            var carry := ShiftRight(chunk, 64 - n);
            FitsIn(carry, n) && out + carry[..n] == buf[..n] + chunk
  {
    var out := Or(buf, ShiftLeft(chunk, n));
    var carry := ShiftRight(chunk, 64 - n);
    forall k | 0 <= k < 64 + n ensures (out + carry[..n])[k] == (buf[..n] + chunk)[k] {
      if k < 64 {
        assert out[k] == (buf[k] || (k >= n && chunk[k - n]));
      }
    }
  }

  /** `dest` receives the bits of `src`, at whatever bit offset it is. */
  method AppendWriter(dest: BitWriter, src: BitWriter)
    requires dest != src && dest.Valid() && src.Valid()
    modifies dest
    ensures dest.Valid() && dest.Contents() == old(dest.Contents()) + src.Contents()
  {
    if dest.bitsInBuffer == 0 {
      AppendAligned(dest, src);
    } else {
      AppendUnaligned(dest, src);
    }
    ghost var middle := dest.Contents();
    ToNatFits(src.buffer, src.bitsInBuffer);
    dest.Write(src.bitsInBuffer, ToNat(src.buffer));
    assert dest.Contents() == middle + src.buffer[..src.bitsInBuffer];
  }

  method AppendAligned(dest: BitWriter, src: BitWriter)
    requires dest != src && dest.Valid() && src.Valid() && dest.bitsInBuffer == 0
    modifies dest
    ensures dest.Valid()
    ensures dest.Contents() == old(dest.Contents()) + ToBits(src.data[..src.bytesWritten])
  {
    ghost var kept, added := dest.data[..dest.bytesWritten], src.data[..src.bytesWritten];
    dest.data := dest.data[..dest.bytesWritten] + src.data[..src.bytesWritten];
    dest.bytesWritten := dest.bytesWritten + src.bytesWritten;
    ToBitsConcat(kept, added);
    assert dest.data[..dest.bytesWritten] == kept + added;
  }

  lemma ToBitsNext(before: seq<bool>, data: seq<Byte>, i: nat)
    requires i < |data|
    ensures data[i] < Pow2(8)
    ensures before + ToBits(data[..i]) + FromNat(data[i], 8) == before + ToBits(data[..i + 1])
  {
    Pow2Small();
    ToBitsConcat(data[..i], [data[i]]);
    ToBitsSingle(data[i]);
    assert data[..i + 1] == data[..i] + [data[i]];
  }

  method AppendUnaligned(dest: BitWriter, src: BitWriter)
    requires dest != src && dest.Valid() && src.Valid() && dest.bitsInBuffer > 0
    modifies dest
    ensures dest.Valid()
    ensures dest.Contents() == old(dest.Contents()) + ToBits(src.data[..src.bytesWritten])
  {
    ghost var before := dest.Contents();
    var i := AppendChunks(dest, src);
    while i < src.bytesWritten
      invariant i <= src.bytesWritten
      invariant dest.Valid() && dest.Contents() == before + ToBits(src.data[..i])
    {
      ToBitsNext(before, src.data, i);
      dest.Write(8, src.data[i]);
      i := i + 1;
    }
  }

  /** A register with only its low `n` bits set denotes a number below 2^n with those bits. */
  lemma ToNatFits(w: Word64, n: nat)
    requires n <= 64 && FitsIn(w, n)
    ensures ToNat(w) < Pow2(n) && FromNat(ToNat(w), n) == w[..n]
  {
    hide ToNat, FromNat;
    var low, high := w[..n], w[n..];
    assert w == low + high;
    assert forall k | 0 <= k < |high| :: high[k] == w[n + k];
    ToNatConcat(low, high);
    ToNatZeros(high);
    ToNatBound(low);
    FromNatToNat(low);
  }

  /** What the chunk loop has copied: `at` bytes of memory and the carry register. */
  ghost predicate Copied(data: seq<Byte>, at: nat, buf: Word64, n: nat, before: seq<bool>, src: seq<Byte>, i: nat) {
    at <= |data| && i <= |src| && FitsIn(buf, n) && n < 64 &&
    ToBits(data[..at]) + buf[..n] == before + ToBits(src[..i])
  }

  lemma CopiedStep(data: seq<Byte>, at: nat, buf: Word64, n: nat, before: seq<bool>, src: seq<Byte>, i: nat)
    requires Copied(data, at, buf, n, before, src, i) && 0 < n < 8 && i + 8 <= |src|
    ensures var chunk := LoadLE64(src, i);
            Copied(StoreLE64(data, at, Or(buf, ShiftLeft(chunk, n))), at + 8, ShiftRight(chunk, 64 - n), n,
                   before, src, i + 8)
  {
    var chunk := LoadLE64(src, i);
    var out := Or(buf, ShiftLeft(chunk, n));
    var data' := StoreLE64(data, at, out);
    ChunkStep(buf, n, chunk);
    BytesOfPrefix(out, 8);
    assert BytesOf(out)[..8] == BytesOf(out) && out[..64] == out;
    assert data'[..at + 8] == data[..at] + BytesOf(out);
    ToBitsConcat(data[..at], BytesOf(out));
    assert src[..i + 8] == src[..i] + src[i..i + 8];
    ToBitsConcat(src[..i], src[i..i + 8]);
    ChunkAppended(ToBits(data[..at]), buf[..n], out, ShiftRight(chunk, 64 - n)[..n], chunk,
                  before, ToBits(src[..i]));
  }

  /** The loop that copies eight bytes at a time. */
  method AppendChunks(dest: BitWriter, src: BitWriter) returns (i: nat)
    requires dest != src && dest.Valid() && src.Valid() && dest.bitsInBuffer > 0
    modifies dest
    ensures i <= src.bytesWritten
    ensures dest.Valid() && dest.Contents() == old(dest.Contents()) + ToBits(src.data[..i])
  {
    i := 0;
    var buf := dest.buffer;
    var start := dest.bytesWritten;
    ghost var before := dest.Contents();
    assert before + ToBits(src.data[..0]) == before;
    while i + 8 < src.bytesWritten
      invariant i <= src.bytesWritten
      invariant dest.bitsInBuffer == old(dest.bitsInBuffer) && dest.bytesWritten == start
      invariant Copied(dest.data, start + i, buf, dest.bitsInBuffer, before, src.data, i)
    {
      CopiedStep(dest.data, start + i, buf, dest.bitsInBuffer, before, src.data, i);
      var chunk := LoadLE64(src.data, i);
      dest.data := StoreLE64(dest.data, start + i, Or(buf, ShiftLeft(chunk, dest.bitsInBuffer)));
      buf := ShiftRight(chunk, 64 - dest.bitsInBuffer);
      i := i + 8;
    }
    dest.buffer := buf;
    dest.bytesWritten := dest.bytesWritten + i;
  }

  lemma ChunkAppended(d: seq<bool>, buf: seq<bool>, out: seq<bool>, carry: seq<bool>, chunk: seq<bool>,
                      before: seq<bool>, copied: seq<bool>)
    requires d + buf == before + copied && out + carry == buf + chunk
    ensures (d + out) + carry == before + (copied + chunk)
  {
    calc {
      (d + out) + carry;
      d + (out + carry);
      d + (buf + chunk);
      (d + buf) + chunk;
      (before + copied) + chunk;
      before + (copied + chunk);
    }
  }
}
