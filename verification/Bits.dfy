/** Bit strings, least significant bit first, and the numbers and machine words they stand for.

Every stream of the codec is a sequence of bits filled from the low end of each byte, so the
refinement statements of the other modules are all phrased over `seq<bool>`.
 */
module Bits {

  type Byte = b: nat | b < 256

  function Pow2(n: nat): (p: nat)
    ensures p > 0
  {
    if n == 0 then 1 else 2 * Pow2(n - 1)
  }

  lemma {:induction false} Pow2Add(a: nat, b: nat)
    ensures Pow2(a + b) == Pow2(a) * Pow2(b)
  {
    if a != 0 {
      Pow2Add(a - 1, b);
    }
  }

  lemma {:induction false} Pow2Monotone(a: nat, b: nat)
    requires a <= b
    ensures Pow2(a) <= Pow2(b)
    ensures a < b ==> Pow2(a) < Pow2(b)
    decreases b - a
  {
    if a < b {
      Pow2Monotone(a, b - 1);
    }
  }

  /** What a word of `n` bits takes of 2^limit; words beyond the limit do not occur. */
  function Share(limit: nat, n: nat): nat {
    if n <= limit then Pow2(limit - n) else 0
  }

  lemma Pow2Small()
    ensures Pow2(1) == 2 && Pow2(2) == 4 && Pow2(3) == 8 && Pow2(4) == 16
    ensures Pow2(5) == 32 && Pow2(6) == 64 && Pow2(7) == 128 && Pow2(8) == 256
    ensures Pow2(9) == 512 && Pow2(10) == 1024 && Pow2(11) == 2048 && Pow2(12) == 4096
    ensures Pow2(13) == 8192 && Pow2(14) == 16384 && Pow2(15) == 32768 && Pow2(16) == 65536
  {
    assert Pow2(4) == 16;
    assert Pow2(8) == 256;
    assert Pow2(12) == 4096;
  }

  lemma Pow2Large()
    ensures Pow2(20) == 0x10_0000 && Pow2(32) == 0x1_0000_0000
    ensures Pow2(22) == 0x40_0000 && Pow2(30) == 0x4000_0000
  {
    Pow2Small();
    Pow2Add(16, 16);
    Pow2Add(16, 4);
    Pow2Add(16, 6);
    Pow2Add(16, 14);
  }

  // ----- numbers and bit strings -----

  function ToNat(b: seq<bool>): nat
  {
    if b == [] then 0 else (if b[0] then 1 else 0) + 2 * ToNat(b[1..])
  }

  /** The low `n` bits of `v`. */
  function FromNat(v: nat, n: nat): (b: seq<bool>)
    ensures |b| == n
    decreases v, n // not just n: a literal n must not unroll the definition
  {
    if n == 0 then [] else [v % 2 == 1] + FromNat(v / 2, n - 1)
  }

  lemma {:induction false} ToNatBound(b: seq<bool>)
    ensures ToNat(b) < Pow2(|b|)
  {
    if b != [] {
      ToNatBound(b[1..]);
    }
  }

  /** The low `n` bits of `v` denote `v` modulo 2^n. */
  lemma {:induction false} ToNatFromNat(v: nat, n: nat)
    ensures ToNat(FromNat(v, n)) == v % Pow2(n)
    decreases n
  {
    if n != 0 {
      ToNatFromNat(v / 2, n - 1);
      assert FromNat(v, n)[1..] == FromNat(v / 2, n - 1);
      ModHalves(v, Pow2(n - 1));
    }
  }

  lemma ModHalves(v: nat, p: nat)
    requires p > 0
    ensures v % (2 * p) == v % 2 + 2 * ((v / 2) % p)
  {
    var q := v / 2 / p;
    var r := (v / 2) % p;
    assert v / 2 == p * q + r;
    assert v == 2 * (p * q) + 2 * r + v % 2;
    assert 2 * (p * q) == (2 * p) * q;
    DivModUnique(v, 2 * p, q, 2 * r + v % 2);
  }

  /** The quotient and remainder are the only pair with these two properties. */
  lemma DivModUnique(v: int, d: int, q: int, r: int)
    requires d > 0 && v == d * q + r && 0 <= r < d
    ensures v / d == q && v % d == r
  {
    var e := q - v / d;
    assert d * (v / d) + v % d == v;
    assert d * e == d * q - d * (v / d);
    if e >= 1 {
      MulAtLeast(d, e);
    } else if e <= -1 {
      MulAtMost(d, e);
    }
  }

  lemma MulAtLeast(d: int, e: int)
    requires d > 0 && e >= 1
    ensures d * e >= d
  {
  }

  lemma MulAtMost(d: int, e: int)
    requires d > 0 && e <= -1
    ensures d * e <= -d
  {
  }

  lemma DivMod(v: nat, e: nat)
    requires e > 0
    ensures v / e >= 0 && v % e < e && v == e * (v / e) + v % e
  {
  }

  lemma MulMonotone(x: nat, y: nat, e: nat)
    requires x <= y
    ensures x * e <= y * e
  {
    assert y * e == x * e + (y - x) * e;
  }

  lemma MulUpTo(a: nat, b: nat, c: nat, d: nat)
    requires a <= b && c <= d
    ensures a * c <= b * d
  {
    MulMonotone(a, b, c);
    MulMonotone(c, d, b);
  }

  lemma QuotientAtLeast(y: nat, f: nat, k: nat)
    requires f > 0 && k * f <= y
    ensures y / f >= k
  {
    DivMod(y, f);
    assert (y / f + 1) * f == f * (y / f) + f;
    if y / f < k {
      MulMonotone(y / f + 1, k, f);
    }
  }

  lemma IndexInRange(v: nat, e: nat, n: nat)
    requires e > 0 && v < n * e
    ensures 0 <= v / e < n
  {
    DivMod(v, e);
    if v / e >= n {
      MulMonotone(n, v / e, e);
    }
  }

  lemma QuotientIffBelow(y: nat, f: nat, k: nat)
    requires k > 0
    ensures y / k < f <==> y < f * k
  {
    if y < f * k {
      IndexInRange(y, k, f);
    } else {
      QuotientAtLeast(y, k, f);
    }
  }

  lemma {:induction false} FromNatToNat(b: seq<bool>)
    ensures FromNat(ToNat(b), |b|) == b
  {
    if b != [] {
      FromNatToNat(b[1..]);
      assert b == [b[0]] + b[1..];
    }
  }

  lemma {:induction false} ToNatConcat(a: seq<bool>, b: seq<bool>)
    ensures ToNat(a + b) == ToNat(a) + Pow2(|a|) * ToNat(b)
  {
    if a == [] {
      assert a + b == b;
    } else {
      ToNatConcat(a[1..], b);
      assert (a + b)[1..] == a[1..] + b;
      assert 2 * (Pow2(|a| - 1) * ToNat(b)) == Pow2(|a|) * ToNat(b);
    }
  }

  /** Bit `k` of `v` does not depend on how many bits are taken. */
  lemma {:induction false} FromNatPrefix(v: nat, m: nat, n: nat)
    requires m <= n
    ensures FromNat(v, n)[..m] == FromNat(v, m)
    decreases m
  {
    if m != 0 {
      FromNatPrefix(v / 2, m - 1, n - 1);
    }
  }

  /** Appending zero bits does not change the number. */
  lemma {:induction false} ToNatZeros(b: seq<bool>)
    requires forall k | 0 <= k < |b| :: !b[k]
    ensures ToNat(b) == 0
  {
    if b != [] {
      ToNatZeros(b[1..]);
    }
  }

  /** A number below 2^n is determined by its low n bits. */
  lemma FromNatInjective(u: nat, v: nat, n: nat)
    requires u < Pow2(n) && v < Pow2(n)
    requires FromNat(u, n) == FromNat(v, n)
    ensures u == v
  {
    ToNatFromNat(u, n);
    ToNatFromNat(v, n);
    ModSmall(u, Pow2(n));
    ModSmall(v, Pow2(n));
  }

  lemma ModSmall(v: nat, d: nat)
    requires v < d
    ensures v % d == v && v / d == 0
  {
    DivModUnique(v, d, 0, v);
  }

  function Zeros(n: nat): (z: seq<bool>)
    ensures |z| == n && forall k | 0 <= k < n :: !z[k]
  {
    seq(n, _ => false)
  }

  // ----- exclusive or -----

  function Xor(a: nat, b: nat): nat
    decreases a + b
  {
    if a == 0 && b == 0 then 0
    else (if a % 2 != b % 2 then 1 else 0) + 2 * Xor(a / 2, b / 2)
  }

  lemma {:induction false} XorZero(a: nat)
    ensures Xor(a, 0) == a
  {
    if a != 0 {
      XorZero(a / 2);
    }
  }

  /** XORing with the same number twice gives the other operand back. */
  lemma {:induction false} XorCancels(a: nat, b: nat)
    ensures Xor(a, Xor(b, a)) == b
    decreases a + b
  {
    if a != 0 || b != 0 {
      XorCancels(a / 2, b / 2);
      assert Xor(b, a) / 2 == Xor(b / 2, a / 2);
    }
  }

  lemma {:induction false} XorBound(a: nat, b: nat, n: nat)
    requires a < Pow2(n) && b < Pow2(n)
    ensures Xor(a, b) < Pow2(n)
  {
    if n != 0 {
      XorBound(a / 2, b / 2, n - 1);
    }
  }

  // ----- shifts and masks -----

  /** `v << n` without a width limit. */
  function Shl(v: nat, n: nat): nat
    decreases n, v
  {
    if n == 0 then v else 2 * Shl(v, n - 1)
  }

  /** `v >> n`. */
  function Shr(v: nat, n: nat): nat
    decreases n, v
  {
    if n == 0 then v else Shr(v / 2, n - 1)
  }

  /** `v & ((1 << n) - 1)`. */
  function Low(v: nat, n: nat): nat
    decreases n, v
  {
    if n == 0 then 0 else v % 2 + 2 * Low(v / 2, n - 1)
  }

  lemma {:induction false} ShlAdd(u: nat, v: nat, n: nat)
    ensures Shl(u + v, n) == Shl(u, n) + Shl(v, n)
    decreases n
  {
    if n > 0 {
      ShlAdd(u, v, n - 1);
    }
  }

  lemma {:induction false} ShlShl(v: nat, a: nat, b: nat)
    ensures Shl(Shl(v, a), b) == Shl(v, a + b)
    decreases b
  {
    if b > 0 {
      ShlShl(v, a, b - 1);
    }
  }

  lemma {:induction false} ShlPow2(a: nat, n: nat)
    ensures Shl(Pow2(a), n) == Pow2(a + n)
    decreases n
  {
    if n > 0 {
      ShlPow2(a, n - 1);
    }
  }

  lemma {:induction false} ShlBelow(v: nat, a: nat, n: nat)
    requires v < Pow2(a)
    ensures Shl(v, n) + Pow2(n) <= Pow2(a + n)
    decreases n
  {
    if n > 0 {
      ShlBelow(v, a, n - 1);
    }
  }

  /** A number is its high part shifted up, plus its low part. */
  lemma {:induction false} ShiftSplit(v: nat, n: nat)
    ensures v == Shl(Shr(v, n), n) + Low(v, n) && Low(v, n) < Pow2(n)
    decreases n
  {
    if n > 0 {
      ShiftSplit(v / 2, n - 1);
    }
  }

  /** ... and this determines both parts. */
  lemma {:induction false} ShiftJoin(q: nat, r: nat, n: nat)
    requires r < Pow2(n)
    ensures Shr(Shl(q, n) + r, n) == q && Low(Shl(q, n) + r, n) == r
    decreases n
  {
    if n > 0 {
      ShiftJoin(q, r / 2, n - 1);
      assert (Shl(q, n) + r) / 2 == Shl(q, n - 1) + r / 2;
    }
  }

  lemma {:induction false} ShrShr(v: nat, a: nat, b: nat)
    ensures Shr(Shr(v, a), b) == Shr(v, a + b)
    decreases a
  {
    if a > 0 {
      ShrShr(v / 2, a - 1, b);
    }
  }

  lemma {:induction false} ShrBounds(v: nat, a: nat, n: nat)
    ensures v >= Pow2(a + n) ==> Shr(v, n) >= Pow2(a)
    ensures v < Pow2(a + n) ==> Shr(v, n) < Pow2(a)
    decreases n
  {
    if n > 0 {
      ShrBounds(v / 2, a, n - 1);
    }
  }

  lemma {:induction false} LowSmall(v: nat, n: nat)
    requires v < Pow2(n)
    ensures Low(v, n) == v && Shr(v, n) == 0
    decreases n
  {
    if n > 0 {
      LowSmall(v / 2, n - 1);
    }
  }

  lemma {:induction false} ShlLess(u: nat, v: nat, n: nat)
    ensures u < v <==> Shl(u, n) < Shl(v, n)
    decreases n
  {
    if n > 0 {
      ShlLess(u, v, n - 1);
    }
  }

  lemma {:induction false} ShrAtLeast(v: nat, q: nat, n: nat)
    requires v >= Shl(q, n)
    ensures Shr(v, n) >= q
    decreases n
  {
    ShiftSplit(v, n);
    if Shr(v, n) < q {
      ShlMonotone(Shr(v, n) + 1, q, n);
      ShlAdd(Shr(v, n), 1, n);
      ShlPow2(0, n);
    }
  }

  lemma ShlMonotone(u: nat, v: nat, n: nat)
    requires u <= v
    ensures Shl(u, n) <= Shl(v, n)
  {
    ShlLess(u, v, n);
    ShlLess(v, u, n);
  }

  lemma {:induction false} FromNatShr(v: nat, m: nat, n: nat)
    requires m <= n
    ensures FromNat(v, n)[m..] == FromNat(Shr(v, m), n - m)
    decreases m
  {
    if m > 0 {
      FromNatShr(v / 2, m - 1, n - 1);
    }
  }

  lemma {:induction false} FromNatJoin(hi: nat, lo: nat, m: nat, n: nat)
    requires lo < Pow2(n)
    ensures FromNat(Shl(hi, n) + lo, n + m) == FromNat(lo, n) + FromNat(hi, m)
    decreases n
  {
    if n > 0 {
      assert (Shl(hi, n) + lo) % 2 == lo % 2 && (Shl(hi, n) + lo) / 2 == Shl(hi, n - 1) + lo / 2;
      FromNatJoin(hi, lo / 2, m, n - 1);
      assert FromNat(lo, n) + FromNat(hi, m) == [lo % 2 == 1] + (FromNat(lo / 2, n - 1) + FromNat(hi, m));
    } else {
      assert FromNat(lo, 0) == [];
    }
  }
}
