/** The hybrid integer code (lib/jxl/dec_ans.h:65-98, 244-276): a token holding the magnitude and a
few leading and trailing binary digits, plus raw bits for the rest.

A value is split as `((2^msb + a) * 2^nbits + b) * 2^lsb + c`; the bit fields never overlap, so the
shifts and ors of the source are products and sums here.
 */
module HybridUint {
  import opened Bits
  import opened BitReading

  datatype Config = Config(splitExponent: nat, msbInToken: nat, lsbInToken: nat) {
    function SplitToken(): nat {
      Pow2(splitExponent)
    }

    /** What the constructor asserts and `DecodeUintConfig` enforces. */
    predicate Valid() {
      msbInToken + lsbInToken <= splitExponent <= 15
    }
  }

  const UINT32_LIMIT: nat := 0x1_0000_0000

  function FloorLog2(v: nat): (n: nat)
    requires v > 0
    ensures Pow2(n) <= v < Pow2(n + 1)
  {
    if v == 1 then 0 else FloorLog2(v / 2) + 1
  }

  lemma FloorLog2Unique(v: nat, n: nat)
    requires Pow2(n) <= v < Pow2(n + 1)
    ensures v > 0 && FloorLog2(v) == n
  {
    var m := FloorLog2(v);
    if m < n {
      Pow2Monotone(m + 1, n);
    } else if n < m {
      Pow2Monotone(n + 1, m);
    }
  }

  datatype Encoded = Encoded(token: nat, nbits: nat, bits: nat)

  /** `HybridUintConfig::Encode`. */
  function Encode(cfg: Config, value: nat): Encoded
    requires cfg.Valid()
  {
    if value < cfg.SplitToken() then Encoded(value, 0, 0)
    else
      LargeValue(cfg, value);
      EncodeLarge(cfg, value, FloorLog2(value))
  }

  function EncodeLarge(cfg: Config, value: nat, n: nat): Encoded
    requires cfg.Valid() && cfg.splitExponent <= n && Pow2(n) <= value
  {
    var m := value - Pow2(n);
    var nbits := n - cfg.msbInToken - cfg.lsbInToken;
    Encoded(cfg.SplitToken() + Shl(n - cfg.splitExponent, cfg.msbInToken + cfg.lsbInToken)
              + Shl(Shr(m, n - cfg.msbInToken), cfg.lsbInToken) + Low(m, cfg.lsbInToken),
            nbits, Low(Shr(value, cfg.lsbInToken), nbits))
  }

  lemma LargeValue(cfg: Config, value: nat)
    requires cfg.Valid() && value >= cfg.SplitToken()
    ensures FloorLog2(value) >= cfg.splitExponent
  {
    var n := FloorLog2(value);
    if n < cfg.splitExponent {
      Pow2Monotone(n + 1, cfg.splitExponent);
    }
  }

  /** Number of raw bits that `ReadHybridUintConfig` takes for a token, before limiting it. */
  function ExtraBits(cfg: Config, token: nat): nat
    requires cfg.Valid()
  {
    if token < cfg.SplitToken() then 0
    else cfg.splitExponent - (cfg.msbInToken + cfg.lsbInToken)
         + Shr(token - cfg.SplitToken(), cfg.msbInToken + cfg.lsbInToken)
  }

  /** ... and after `nbits &= 31`. */
  function RawBits(cfg: Config, token: nat): (n: nat)
    requires cfg.Valid()
    ensures n < 32
  {
    ExtraBits(cfg, token) % 32
  }

  /** The untruncated value of a token and its raw bits. */
  function Compose(cfg: Config, token: nat, bits: nat): nat
    requires cfg.Valid()
  {
    if token < cfg.SplitToken() then token
    else
      var low := Low(token, cfg.lsbInToken);
      var high := Pow2(cfg.msbInToken) + Low(Shr(token, cfg.lsbInToken), cfg.msbInToken);
      Shl(Shl(high, RawBits(cfg, token)) + bits, cfg.lsbInToken) + low
  }

  /** `ReadHybridUintConfig` on the raw bits found in the stream. */
  function Decode(cfg: Config, token: nat, bits: nat): nat
    requires cfg.Valid()
  {
    Compose(cfg, token, bits) % UINT32_LIMIT
  }

  // ----- the digits of a value -----

  function FromDigits(msb: nat, k: nat, lsb: nat, a: nat, b: nat, c: nat): nat {
    Shl(Shl(Pow2(msb) + a, k) + b, lsb) + c
  }

  ghost predicate AreDigits(msb: nat, k: nat, lsb: nat, a: nat, b: nat, c: nat) {
    a < Pow2(msb) && b < Pow2(k) && c < Pow2(lsb)
  }

  lemma DigitsOf(value: nat, msb: nat, k: nat, lsb: nat) returns (a: nat, b: nat, c: nat)
    requires value > 0 && FloorLog2(value) == msb + k + lsb
    ensures AreDigits(msb, k, lsb, a, b, c) && value == FromDigits(msb, k, lsb, a, b, c)
  {
    var rest := Shr(value, lsb);
    ShiftSplit(value, lsb);
    ShiftSplit(rest, k);
    ShrBounds(value, msb + k, lsb);
    ShrBounds(value, msb + k + 1, lsb);
    ShrBounds(rest, msb, k);
    ShrBounds(rest, msb + 1, k);
    a, b, c := Shr(rest, k) - Pow2(msb), Low(rest, k), Low(value, lsb);
  }

  /** The digits below the leading one. */
  lemma DigitsMantissa(msb: nat, k: nat, lsb: nat, a: nat, b: nat, c: nat)
    requires AreDigits(msb, k, lsb, a, b, c)
    ensures FromDigits(msb, k, lsb, a, b, c) == Pow2(msb + k + lsb) + Shl(Shl(a, k) + b, lsb) + c
    ensures Shl(Shl(a, k) + b, lsb) + c < Pow2(msb + k + lsb)
    ensures Shl(Shl(a, k) + b, lsb) + c == Shl(a, k + lsb) + (Shl(b, lsb) + c)
    ensures Shl(b, lsb) + c < Pow2(k + lsb)
  {
    ShlAdd(Pow2(msb), a, k);
    ShlPow2(msb, k);
    ShlAdd(Pow2(msb + k), Shl(a, k) + b, lsb);
    ShlPow2(msb + k, lsb);
    ShlBelow(a, msb, k);
    ShlBelow(Shl(a, k) + b, msb + k, lsb);
    ShlAdd(Shl(a, k), b, lsb);
    ShlShl(a, k, lsb);
    ShlBelow(b, k, lsb);
  }

  lemma DigitsMagnitude(msb: nat, k: nat, lsb: nat, a: nat, b: nat, c: nat)
    requires AreDigits(msb, k, lsb, a, b, c)
    ensures var value := FromDigits(msb, k, lsb, a, b, c);
            value > 0 && FloorLog2(value) == msb + k + lsb
  {
    DigitsMantissa(msb, k, lsb, a, b, c);
    FloorLog2Unique(FromDigits(msb, k, lsb, a, b, c), msb + k + lsb);
  }

  /** The expressions of the source that take the digits apart again. */
  lemma DigitsExtract(n: nat, msb: nat, k: nat, lsb: nat, a: nat, b: nat, c: nat)
    requires AreDigits(msb, k, lsb, a, b, c) && n == msb + k + lsb
    ensures var value := FromDigits(msb, k, lsb, a, b, c);
            var m := value - Pow2(n);
            m >= 0 && Shr(m, n - msb) == a && Low(m, lsb) == c && Low(Shr(value, lsb), k) == b
  {
    hide Pow2, Shl, Shr, Low;
    DigitsMantissa(msb, k, lsb, a, b, c);
    assert n - msb == k + lsb;
    ShiftJoin(a, Shl(b, lsb) + c, n - msb);
    ShiftJoin(Shl(a, k) + b, c, lsb);
    ShiftJoin(Shl(Pow2(msb) + a, k) + b, c, lsb);
    ShiftJoin(Pow2(msb) + a, b, k);
  }

  // ----- tokens -----

  /** The token for exponent excess `x` and digits `a`, `c`. */
  function TokenOf(cfg: Config, x: nat, a: nat, c: nat): nat {
    cfg.SplitToken() + Shl(x, cfg.msbInToken + cfg.lsbInToken) + Shl(a, cfg.lsbInToken) + c
  }

  lemma TokenParts(cfg: Config, x: nat, a: nat, c: nat)
    requires cfg.Valid() && a < Pow2(cfg.msbInToken) && c < Pow2(cfg.lsbInToken)
    ensures var token := TokenOf(cfg, x, a, c);
            token >= cfg.SplitToken() &&
            Shr(token - cfg.SplitToken(), cfg.msbInToken + cfg.lsbInToken) == x &&
            Low(token, cfg.lsbInToken) == c && Low(Shr(token, cfg.lsbInToken), cfg.msbInToken) == a
  {
    hide Shl, Shr, Low, Pow2;
    var msb, lsb := cfg.msbInToken, cfg.lsbInToken;
    ShlBelow(a, msb, lsb);
    ShiftJoin(x, Shl(a, lsb) + c, msb + lsb);
    var above := Pow2(cfg.splitExponent - msb - lsb);
    SplitTokenIsMultiple(cfg, x, a);
    ShiftJoin(Shl(above + x, msb) + a, c, lsb);
    ShiftJoin(above + x, a, msb);
  }

  /** The split token is a multiple of 2^(msb + lsb), so it does not disturb the digits. */
  lemma SplitTokenIsMultiple(cfg: Config, x: nat, a: nat)
    requires cfg.Valid()
    ensures var msb, lsb := cfg.msbInToken, cfg.lsbInToken;
            var above := Pow2(cfg.splitExponent - msb - lsb);
            cfg.SplitToken() + Shl(x, msb + lsb) + Shl(a, lsb) == Shl(Shl(above + x, msb) + a, lsb)
  {
    var msb, lsb := cfg.msbInToken, cfg.lsbInToken;
    var above := Pow2(cfg.splitExponent - msb - lsb);
    ShlPow2(cfg.splitExponent - msb - lsb, msb + lsb);
    ShlAdd(above, x, msb + lsb);
    ShlShl(above + x, msb, lsb);
    ShlAdd(Shl(above + x, msb), a, lsb);
  }

  /** Every token from the split token on is one of these. */
  lemma TokenDigits(cfg: Config, token: nat) returns (x: nat, a: nat, c: nat)
    requires cfg.Valid() && token >= cfg.SplitToken()
    ensures a < Pow2(cfg.msbInToken) && c < Pow2(cfg.lsbInToken) && token == TokenOf(cfg, x, a, c)
  {
    var msb, lsb := cfg.msbInToken, cfg.lsbInToken;
    var t := token - cfg.SplitToken();
    ShiftSplit(t, msb + lsb);
    var r := Low(t, msb + lsb);
    ShiftSplit(r, lsb);
    ShrBounds(r, msb, lsb);
    x, a, c := Shr(t, msb + lsb), Shr(r, lsb), Low(r, lsb);
  }

  /** The digits of the composed value are those of the token and the raw bits. */
  lemma ComposeDigits(cfg: Config, x: nat, a: nat, c: nat, bits: nat)
    requires cfg.Valid() && a < Pow2(cfg.msbInToken) && c < Pow2(cfg.lsbInToken)
    ensures var token := TokenOf(cfg, x, a, c);
            token >= cfg.SplitToken() &&
            ExtraBits(cfg, token) == cfg.splitExponent - (cfg.msbInToken + cfg.lsbInToken) + x &&
            Compose(cfg, token, bits)
              == FromDigits(cfg.msbInToken, RawBits(cfg, token), cfg.lsbInToken, a, bits, c)
  {
    TokenParts(cfg, x, a, c);
  }

  // ----- both are inverses -----

  lemma EncodeLargeDigits(cfg: Config, n: nat, a: nat, b: nat, c: nat)
    requires cfg.Valid() && cfg.splitExponent <= n
    requires var k := n - cfg.msbInToken - cfg.lsbInToken;
             AreDigits(cfg.msbInToken, k, cfg.lsbInToken, a, b, c)
    ensures var k := n - cfg.msbInToken - cfg.lsbInToken;
            var value := FromDigits(cfg.msbInToken, k, cfg.lsbInToken, a, b, c);
            Pow2(n) <= value && EncodeLarge(cfg, value, n) == Encoded(TokenOf(cfg, n - cfg.splitExponent, a, c), k, b)
  {
    hide FromDigits, Shl, Shr, Low, Pow2, AreDigits, Config.SplitToken;
    DigitsExtract(n, cfg.msbInToken, n - cfg.msbInToken - cfg.lsbInToken, cfg.lsbInToken, a, b, c);
  }

  /** Encoding a value given by its digits. */
  lemma EncodeOfDigits(cfg: Config, n: nat, a: nat, b: nat, c: nat)
    requires cfg.Valid() && cfg.splitExponent <= n
    requires var k := n - cfg.msbInToken - cfg.lsbInToken;
             AreDigits(cfg.msbInToken, k, cfg.lsbInToken, a, b, c)
    ensures var k := n - cfg.msbInToken - cfg.lsbInToken;
            var value := FromDigits(cfg.msbInToken, k, cfg.lsbInToken, a, b, c);
            Encode(cfg, value) == Encoded(TokenOf(cfg, n - cfg.splitExponent, a, c), k, b)
  {
    var k := n - cfg.msbInToken - cfg.lsbInToken;
    EncodeLargeDigits(cfg, n, a, b, c);
    DigitsMagnitude(cfg.msbInToken, k, cfg.lsbInToken, a, b, c);
    Pow2Monotone(cfg.splitExponent, n);
  }

  lemma SmallMagnitude(value: nat)
    requires 0 < value < UINT32_LIMIT
    ensures FloorLog2(value) < 32
  {
    Pow2Large();
    if FloorLog2(value) >= 32 {
      Pow2Monotone(32, FloorLog2(value));
    }
  }

  /** Composing a value from the token and the raw bits of its digits. */
  lemma ComposeOfDigits(cfg: Config, n: nat, a: nat, b: nat, c: nat)
    requires cfg.Valid() && cfg.splitExponent <= n < 32
    requires a < Pow2(cfg.msbInToken) && c < Pow2(cfg.lsbInToken)
    ensures var k := n - cfg.msbInToken - cfg.lsbInToken;
            var token := TokenOf(cfg, n - cfg.splitExponent, a, c);
            RawBits(cfg, token) == k &&
            Compose(cfg, token, b) == FromDigits(cfg.msbInToken, k, cfg.lsbInToken, a, b, c)
  {
    ComposeDigits(cfg, n - cfg.splitExponent, a, c, b);
  }

  lemma DecodeEncodeLarge(cfg: Config, value: nat)
    requires cfg.Valid() && cfg.SplitToken() <= value < UINT32_LIMIT
    ensures var e := Encode(cfg, value);
            e.nbits == RawBits(cfg, e.token) && e.bits < Pow2(e.nbits) && Compose(cfg, e.token, e.bits) == value
  {
    var n := FloorLog2(value);
    LargeValue(cfg, value);
    SmallMagnitude(value);
    var k: nat := n - cfg.msbInToken - cfg.lsbInToken;
    var a, b, c := DigitsOf(value, cfg.msbInToken, k, cfg.lsbInToken);
    EncodeOfDigits(cfg, n, a, b, c);
    ComposeOfDigits(cfg, n, a, b, c);
  }

  /** Decoding inverts encoding for every 32-bit value, and the number of raw bits written is the
      number the reader takes. */
  lemma DecodeEncode(cfg: Config, value: nat)
    requires cfg.Valid() && value < UINT32_LIMIT
    ensures var e := Encode(cfg, value);
            e.nbits == RawBits(cfg, e.token) && e.bits < Pow2(e.nbits) && Decode(cfg, e.token, e.bits) == value
  {
    if value >= cfg.SplitToken() {
      DecodeEncodeLarge(cfg, value);
    }
  }

  lemma EncodeComposeLarge(cfg: Config, token: nat, bits: nat)
    requires cfg.Valid() && token >= cfg.SplitToken()
    requires ExtraBits(cfg, token) < 32 && bits < Pow2(RawBits(cfg, token))
    ensures Encode(cfg, Compose(cfg, token, bits)) == Encoded(token, RawBits(cfg, token), bits)
  {
    hide FromDigits, Compose, Encode;
    var x, a, c := TokenDigits(cfg, token);
    ComposeDigits(cfg, x, a, c, bits);
    EncodeOfDigits(cfg, cfg.splitExponent + x, a, bits, c);
  }

  /** Encoding inverts decoding: a token and raw bits that stand for a 32-bit value without the
      reader's limits coming into play are the only encoding of that value. */
  lemma EncodeDecode(cfg: Config, token: nat, bits: nat)
    requires cfg.Valid() && bits < Pow2(RawBits(cfg, token))
    requires ExtraBits(cfg, token) < 32 && Compose(cfg, token, bits) < UINT32_LIMIT
    ensures Encode(cfg, Decode(cfg, token, bits)) == Encoded(token, RawBits(cfg, token), bits)
  {
    hide *;
    NotReduced(cfg, token, bits);
    if token >= cfg.SplitToken() {
      EncodeComposeLarge(cfg, token, bits);
    } else {
      EncodeComposeSmall(cfg, token, bits);
    }
  }

  lemma NotReduced(cfg: Config, token: nat, bits: nat)
    requires cfg.Valid() && Compose(cfg, token, bits) < UINT32_LIMIT
    ensures Decode(cfg, token, bits) == Compose(cfg, token, bits)
  {
    hide Compose;
  }

  lemma EncodeComposeSmall(cfg: Config, token: nat, bits: nat)
    requires cfg.Valid() && token < cfg.SplitToken() && bits < Pow2(RawBits(cfg, token))
    ensures Encode(cfg, Compose(cfg, token, bits)) == Encoded(token, RawBits(cfg, token), bits)
  {
  }

  // ----- how large a decoded value can be -----

  /** Bits that `UpdateMaxNumBits` accounts for a symbol. */
  function TotalBits(cfg: Config, symbol: nat): nat
    requires cfg.Valid()
  {
    if symbol < cfg.SplitToken() then cfg.splitExponent
    else cfg.msbInToken + cfg.lsbInToken + ExtraBits(cfg, symbol) + 1
  }

  lemma ComposeBound(cfg: Config, token: nat, bits: nat)
    requires cfg.Valid() && token >= cfg.SplitToken()
    requires ExtraBits(cfg, token) < 32 && bits < Pow2(RawBits(cfg, token))
    ensures Compose(cfg, token, bits) < Pow2(TotalBits(cfg, token))
  {
    hide Shl, FromDigits, Compose, Encode;
    var x, a, c := TokenDigits(cfg, token);
    ComposeDigits(cfg, x, a, c, bits);
    DigitsMantissa(cfg.msbInToken, RawBits(cfg, token), cfg.lsbInToken, a, bits, c);
  }

  /** No raw bits can take a decoded value beyond the accounted bits. */
  lemma DecodeBound(cfg: Config, token: nat, bits: nat)
    requires cfg.Valid() && bits < Pow2(RawBits(cfg, token))
    ensures Decode(cfg, token, bits) < Pow2(TotalBits(cfg, token))
    ensures Decode(cfg, token, bits) < UINT32_LIMIT
  {
    if token >= cfg.SplitToken() {
      if ExtraBits(cfg, token) >= 32 {
        Pow2Large();
        Pow2Monotone(32, TotalBits(cfg, token));
      } else {
        ComposeBound(cfg, token, bits);
      }
    }
  }
}
