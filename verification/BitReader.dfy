/** The 64-bit buffered bit reader (lib/jxl/dec_bit_reader.h) as a refinement of a bit sequence.

A byte string stands for the infinite sequence of its bits, least significant bit of each byte
first, followed by zeros. `Refill` may leave valid bits above `bitsInBuf` and ORs the same bits
in again later; the class invariant says why that is harmless.
 */
module BitReading {
  import opened Bits

  // ----- 64-bit registers -----

  /** A uint64 as its bits, least significant first. */
  type Word64 = w: seq<bool> | |w| == 64 witness Zeros(64)

  function Or(a: Word64, b: Word64): (w: Word64)
    ensures forall i | 0 <= i < 64 :: w[i] == (a[i] || b[i])
  {
    seq(64, i requires 0 <= i < 64 => a[i] || b[i])
  }

  function ShiftLeft(a: Word64, n: nat): (w: Word64)
    requires n < 64
    ensures forall i | 0 <= i < 64 :: w[i] == (i >= n && a[i - n])
  {
    seq(64, i requires 0 <= i < 64 => i >= n && a[i - n])
  }

  function ShiftRight(a: Word64, n: nat): (w: Word64)
    requires n < 64
    ensures forall i | 0 <= i < 64 :: w[i] == (i + n < 64 && a[i + n])
  {
    seq(64, i requires 0 <= i < 64 => i + n < 64 && a[i + n])
  }

  // ----- the bit sequence of a byte string -----

  /** The bits of the bytes, in order. */
  function ToBits(data: seq<Byte>): (b: seq<bool>)
    ensures |b| == 8 * |data|
  {
    if data == [] then [] else FromNat(data[0], 8) + ToBits(data[1..])
  }

  lemma {:induction false} ToBitsConcat(a: seq<Byte>, b: seq<Byte>)
    ensures ToBits(a + b) == ToBits(a) + ToBits(b)
  {
    hide FromNat;
    if a == [] {
      assert a + b == b;
    } else {
      ToBitsConcat(a[1..], b);
      assert (a + b)[1..] == a[1..] + b;
    }
  }

  lemma ToBitsSlice(data: seq<Byte>, i: nat, j: nat)
    requires i <= j <= |data|
    ensures ToBits(data[i..j]) == ToBits(data)[8 * i..8 * j]
  {
    hide ToBits;
    var a, b, c := data[..i], data[i..j], data[j..];
    ThreeParts(data, i, j);
    ToBitsMiddle(a, b, c);
  }

  lemma ToBitsMiddle(a: seq<Byte>, b: seq<Byte>, c: seq<Byte>)
    ensures ToBits(a + b + c)[8 * |a|..8 * (|a| + |b|)] == ToBits(b)
  {
    ToBitsConcat(a, b);
    ToBitsConcat(a + b, c);
    Middle(ToBits(a), ToBits(b), ToBits(c));
  }

  lemma ThreeParts<T>(s: seq<T>, i: nat, j: nat)
    requires i <= j <= |s|
    ensures s == s[..i] + s[i..j] + s[j..]
  {
  }

  lemma Middle<T>(a: seq<T>, b: seq<T>, c: seq<T>)
    ensures (a + b + c)[|a|..|a| + |b|] == b
  {
  }

  lemma ToBitsByte(data: seq<Byte>, i: nat)
    requires i < |data|
    ensures FromNat(data[i], 8) == ToBits(data)[8 * i..8 * i + 8]
  {
    ToBitsSlice(data, i, i + 1);
    assert data[i..i + 1] == [data[i]];
    assert [data[i]][1..] == [];
    assert ToBits([data[i]]) == FromNat(data[i], 8) + [];
  }

  /** `n` bits of `s` from position `pos` on; `s` continues with zeros. */
  function Stream(s: seq<bool>, pos: nat, n: nat): (b: seq<bool>)
    ensures |b| == n && forall i | 0 <= i < n :: b[i] == (pos + i < |s| && s[pos + i])
  {
    seq(n, i requires 0 <= i < n => pos + i < |s| && s[pos + i])
  }

  /** `b` is what the bit string `s` holds at `pos`. */
  ghost predicate HoldsAt(s: seq<bool>, pos: nat, b: seq<bool>) {
    pos + |b| <= |s| && s[pos..pos + |b|] == b
  }

  lemma HoldsAtSplit(s: seq<bool>, pos: nat, a: seq<bool>, b: seq<bool>)
    requires HoldsAt(s, pos, a + b)
    ensures HoldsAt(s, pos, a) && HoldsAt(s, pos + |a|, b)
  {
    var t := s[pos..pos + |a + b|];
    assert t[..|a|] == a && t[|a|..] == b;
  }

  /** The number in the `n` bits from `pos` on. */
  function NumberAt(s: seq<bool>, pos: nat, n: nat): nat {
    ToNat(Stream(s, pos, n))
  }

  /** Reading a number that was written with the same width. */
  lemma HeldNumber(s: seq<bool>, pos: nat, v: nat, n: nat)
    requires v < Pow2(n) && HoldsAt(s, pos, FromNat(v, n))
    ensures NumberAt(s, pos, n) == v
  {
    assert Stream(s, pos, n) == s[pos..pos + n];
    ToNatFromNat(v, n);
    ModSmall(v, Pow2(n));
  }

  /** Eight bytes as a little-endian register. */
  function LoadLE64(data: seq<Byte>, at: nat): Word64
    requires at + 8 <= |data|
  {
    ToBits(data[at..at + 8])
  }

  /** A byte widened to 64 bits. */
  function ByteWord(b: Byte): Word64 {
    FromNat(b, 8) + Zeros(56)
  }

  /** The register holds the `bits` stream bits from `pos` on; above them every bit is either
      clear or the true stream bit. */
  ghost predicate Buffered(s: seq<bool>, buf: Word64, bits: nat, pos: nat) {
    forall k | 0 <= k < 64 ::
      if k < bits then buf[k] == (pos + k < |s| && s[pos + k])
      else buf[k] ==> pos + k < |s| && s[pos + k]
  }

  lemma BufferedConsume(s: seq<bool>, buf: Word64, bits: nat, pos: nat, n: nat)
    requires n <= bits < 64 && Buffered(s, buf, bits, pos)
    ensures Buffered(s, ShiftRight(buf, n), bits - n, pos + n)
  {
  }

  /** ORing in stream bits above the buffered ones: those already there do not change. */
  lemma BufferedOr(s: seq<bool>, buf: Word64, bits: nat, pos: nat, t: Word64, more: nat)
    requires bits < 64 && bits + more < 64 && pos + bits + more <= |s|
    requires Buffered(s, buf, bits, pos)
    requires forall k | 0 <= k < 64 - bits :: t[k] ==> pos + bits + k < |s| && s[pos + bits + k]
    requires t[..more] == s[pos + bits..pos + bits + more]
    ensures Buffered(s, Or(buf, ShiftLeft(t, bits)), bits + more, pos)
  {
    assert forall k | 0 <= k < more :: t[..more][k] == t[k];
  }

  lemma BufferedLoad(s: seq<bool>, buf: Word64, bits: nat, next: nat, pos: nat, t: Word64)
    requires bits < 64 && pos + bits == 8 * next && 8 * next + 64 <= |s|
    requires t == s[8 * next..8 * next + 64]
    requires Buffered(s, buf, bits, pos)
    ensures Buffered(s, Or(buf, ShiftLeft(t, bits)), 56 + bits % 8, pos)
  {
    BufferedOr(s, buf, bits, pos, t, 56 + bits % 8 - bits);
  }

  lemma LoadedWord(data: seq<Byte>, buf: Word64, bits: nat, next: nat, pos: nat)
    requires bits < 64 && pos + bits == 8 * next && next + 8 <= |data| && Buffered(ToBits(data), buf, bits, pos)
    ensures Buffered(ToBits(data), Or(buf, ShiftLeft(LoadLE64(data, next), bits)), 56 + bits % 8, pos)
  {
    hide Or, ShiftLeft, Buffered, ToBits;
    ToBitsSlice(data, next, next + 8);
    BufferedLoad(ToBits(data), buf, bits, next, pos, LoadLE64(data, next));
  }

  lemma BufferedByte(s: seq<bool>, buf: Word64, bits: nat, next: nat, pos: nat, b: Byte)
    requires bits < 56 && pos + bits == 8 * next && 8 * next + 8 <= |s|
    requires FromNat(b, 8) == s[8 * next..8 * next + 8]
    requires Buffered(s, buf, bits, pos)
    ensures Buffered(s, Or(buf, ShiftLeft(ByteWord(b), bits)), bits + 8, pos)
  {
    var t := ByteWord(b);
    assert t[..8] == FromNat(b, 8);
    assert forall k | 0 <= k < 8 :: t[k] == FromNat(b, 8)[k];
    BufferedOr(s, buf, bits, pos, t, 8);
  }

  /** Setting the three upper bits of the count absorbs whole bytes. */
  lemma RefillCount(bits: nat)
    requires bits < 64
    ensures bits + 8 * ((63 - bits) / 8) == 56 + bits % 8
  {
  }

  lemma BufferedZeros(s: seq<bool>, buf: Word64, bits: nat, pos: nat, more: nat)
    requires bits + more < 64 && pos + bits >= |s|
    requires Buffered(s, buf, bits, pos)
    ensures Buffered(s, buf, bits + more, pos)
  {
  }

  lemma BufferedPeek(s: seq<bool>, buf: Word64, bits: nat, pos: nat, n: nat)
    requires n <= bits < 64 && Buffered(s, buf, bits, pos)
    ensures buf[..n] == Stream(s, pos, n)
  {
  }

  /** Number of bits up to the next byte boundary. */
  function Padding(n: nat): (p: nat)
    ensures p < 8
  {
    (n + 7) / 8 * 8 - n
  }

  lemma PaddingCases(n: nat)
    ensures Padding(n) == if n % 8 == 0 then 0 else 8 - n % 8
  {
  }

  lemma PaddingShift(m: nat, n: nat)
    requires m % 8 == 0
    ensures Padding(m + n) == Padding(n)
  {
    var k := m / 8;
    assert m == 8 * k;
    assert (8 * k + n + 7) / 8 == k + (n + 7) / 8;
  }

  lemma FieldEmpty(s: seq<bool>, pos: nat)
    ensures NumberAt(s, pos, 0) == 0
  {
    assert Stream(s, pos, 0) == [];
  }

  class BitReader {
    const data: seq<Byte>
    var buf: Word64
    var bitsInBuf: nat
    var nextByte: nat
    var overreadBytes: nat
    var checkedOutOfBoundsBits: nat
    var closeCalled: bool

    /** Number of bits consumed. */
    function TotalBitsConsumed(): int
      reads this
    {
      (nextByte + overreadBytes) * 8 - bitsInBuf
    }

    /** Buffered bits are the next stream bits; bits above them are clear or the true stream bits. */
    ghost predicate Valid()
      reads this
    {
      && bitsInBuf < 64 && nextByte <= |data|
      && (overreadBytes > 0 ==> nextByte == |data|)
      && bitsInBuf <= (nextByte + overreadBytes) * 8
      && Buffered(ToBits(data), buf, bitsInBuf, Position())
    }

    /** The abstract state: how many stream bits have been consumed. */
    ghost function Position(): (p: nat)
      requires bitsInBuf <= (nextByte + overreadBytes) * 8
      reads this
      ensures p == TotalBitsConsumed()
    {
      (nextByte + overreadBytes) * 8 - bitsInBuf
    }

    constructor (bytes: seq<Byte>)
      ensures Valid() && data == bytes && Position() == 0 && !closeCalled
    {
      data := bytes;
      buf, bitsInBuf, nextByte, overreadBytes := Zeros(64), 0, 0, 0;
      checkedOutOfBoundsBits, closeCalled := 0, false;
      new;
      Refill();
    }

    /** At least 56 bits are available afterwards, and nothing is consumed. */
    method Refill()
      requires Valid()
      modifies this
      ensures Valid() && Position() == old(Position()) && bitsInBuf >= 56
      ensures closeCalled == old(closeCalled) && checkedOutOfBoundsBits == old(checkedOutOfBoundsBits)
    {
      if nextByte > |data| - 8 {
        BoundsCheckedRefill();
      } else {
        hide Or, ShiftLeft, Buffered, ToBits, LoadLE64;
        RefillCount(bitsInBuf);
        assert overreadBytes == 0;
        LoadedWord(data, buf, bitsInBuf, nextByte, Position());
        buf := Or(buf, ShiftLeft(LoadLE64(data, nextByte), bitsInBuf));
        nextByte := nextByte + (63 - bitsInBuf) / 8;
        bitsInBuf := 56 + bitsInBuf % 8; // bits_in_buf_ |= 56
      }
    }

    method BoundsCheckedRefill()
      requires Valid()
      modifies this
      ensures Valid() && Position() == old(Position()) && bitsInBuf >= 56
      ensures closeCalled == old(closeCalled) && checkedOutOfBoundsBits == old(checkedOutOfBoundsBits)
    {
      hide Or, ShiftLeft, Buffered, ToBits;
      while bitsInBuf < 64 - 8
        invariant Valid() && Position() == old(Position())
        invariant closeCalled == old(closeCalled) && checkedOutOfBoundsBits == old(checkedOutOfBoundsBits)
      {
        if nextByte >= |data| {
          break;
        }
        ToBitsByte(data, nextByte);
        BufferedByte(ToBits(data), buf, bitsInBuf, nextByte, Position(), data[nextByte]);
        buf := Or(buf, ShiftLeft(ByteWord(data[nextByte]), bitsInBuf));
        nextByte := nextByte + 1;
        bitsInBuf := bitsInBuf + 8;
      }
      var extraBytes := (63 - bitsInBuf) / 8;
      if extraBytes > 0 {
        BufferedZeros(ToBits(data), buf, bitsInBuf, Position(), extraBytes * 8);
      }
      overreadBytes := overreadBytes + extraBytes;
      bitsInBuf := bitsInBuf + extraBytes * 8;
    }

    /** The next `nbits` bits, without consuming them. */
    method PeekBits(nbits: nat) returns (bits: nat)
      requires Valid() && nbits <= bitsInBuf
      ensures bits == NumberAt(ToBits(data), Position(), nbits)
    {
      BufferedPeek(ToBits(data), buf, bitsInBuf, Position(), nbits);
      bits := ToNat(buf[..nbits]);
    }

    method Consume(numBits: nat)
      requires Valid() && numBits <= bitsInBuf
      modifies this
      ensures Valid() && Position() == old(Position()) + numBits && bitsInBuf == old(bitsInBuf) - numBits
      ensures closeCalled == old(closeCalled) && checkedOutOfBoundsBits == old(checkedOutOfBoundsBits)
    {
      BufferedConsume(ToBits(data), buf, bitsInBuf, Position(), numBits);
      bitsInBuf := bitsInBuf - numBits;
      buf := ShiftRight(buf, numBits);
    }

    /** Reads exactly the next `nbits` stream bits. */
    method ReadBits(nbits: nat) returns (bits: nat)
      requires Valid() && nbits <= 56
      modifies this
      ensures Valid() && Position() == old(Position()) + nbits
      ensures bits == NumberAt(ToBits(data), old(Position()), nbits)
      ensures closeCalled == old(closeCalled) && checkedOutOfBoundsBits == old(checkedOutOfBoundsBits)
    {
      Refill();
      bits := PeekBits(nbits);
      Consume(nbits);
    }

    /** Whole bytes past the last buffered one that `SkipBits` has to jump over. */
    ghost function WholeBytesToSkip(skip: nat): nat
      reads this
    {
      if skip <= bitsInBuf then 0 else (skip - bitsInBuf) / 8
    }

    /** The position advances by exactly `skip`, unless the jump would pass the last byte of the
        stream: then it ends `8 * (excess - 1)` bits short, yet past the end. */
    method SkipBits(skip: nat)
      requires Valid()
      modifies this
      ensures Valid()
      ensures var excess := old(WholeBytesToSkip(skip)) - (|data| - old(nextByte));
              if excess <= 1 then Position() == old(Position()) + skip
              else Position() == old(Position()) + skip - 8 * (excess - 1) && Position() >= 8 * |data| + 8
      ensures closeCalled == old(closeCalled) && checkedOutOfBoundsBits == old(checkedOutOfBoundsBits)
    {
      if skip <= bitsInBuf {
        Consume(skip);
        return;
      }
      var rest := skip - bitsInBuf;
      bitsInBuf := 0;
      buf := Zeros(64);
      var wholeBytes := rest / 8;
      rest := rest % 8;
      if wholeBytes > |data| - nextByte {
        nextByte := |data|;
        rest := rest + 8;
      } else {
        nextByte := nextByte + wholeBytes;
      }
      Refill();
      Consume(rest);
    }

    /** True exactly when no bit past the end of the stream has been consumed. */
    method AllReadsWithinBounds() returns (ok: bool)
      requires Valid()
      modifies this`checkedOutOfBoundsBits
      ensures Valid() && Position() == old(Position())
      ensures ok <==> Position() <= 8 * |data|
      ensures checkedOutOfBoundsBits == Position()
    {
      checkedOutOfBoundsBits := TotalBitsConsumed();
      return TotalBitsConsumed() <= |data| * 8;
    }

    /** Moves to the next byte boundary; fails iff the bits skipped are not all zero. */
    method JumpToByteBoundary() returns (ok: bool)
      requires Valid()
      modifies this
      ensures Valid() && Position() == old(Position()) + Padding(old(Position()))
      ensures ok <==> NumberAt(ToBits(data), old(Position()), Padding(old(Position()))) == 0
    {
      PaddingCases(Position());
      FieldEmpty(ToBits(data), Position());
      hide NumberAt, Padding;
      var remainder := TotalBitsConsumed() % 8;
      if remainder == 0 {
        return true;
      }
      var padding := ReadBits(8 - remainder);
      return padding == 0;
    }

    /** Fails iff bits past the end were consumed since the last bounds check. */
    method Close() returns (ok: bool)
      requires Valid() && !closeCalled
      modifies this`closeCalled
      ensures closeCalled && Valid()
      ensures ok <==> !(Position() > checkedOutOfBoundsBits && Position() > 8 * |data|)
    {
      closeCalled := true;
      return !(TotalBitsConsumed() > checkedOutOfBoundsBits && TotalBitsConsumed() > |data| * 8);
    }
  }
}
