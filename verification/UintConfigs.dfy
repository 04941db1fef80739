/** Reading hybrid integer configurations from the stream (lib/jxl/dec_ans.cc:264-297) and writing
them (lib/jxl/enc_ans.cc:525-537).
 */
module UintConfigs {
  import opened Bits
  import opened BitReading
  import opened HybridUint

  datatype Option<T> = None | Some(value: T)

  /** `CeilLog2Nonzero`: the width of a field for values up to `v - 1`. */
  function CeilLog2(v: nat): (n: nat)
    requires v > 0
    ensures v <= Pow2(n)
    ensures n > 0 ==> Pow2(n - 1) < v
  {
    if Pow2(FloorLog2(v)) == v then FloorLog2(v) else FloorLog2(v) + 1
  }

  lemma CeilLog2AtMost(v: nat, n: nat)
    requires 0 < v <= Pow2(n)
    ensures CeilLog2(v) <= n
  {
    if CeilLog2(v) > n {
      Pow2Monotone(n, CeilLog2(v) - 1);
    }
  }

  datatype Parsed = Parsed(config: Option<Config>, pos: nat)

  function ParseLsb(s: seq<bool>, pos: nat, splitExponent: nat, msb: nat): Parsed
    requires msb <= splitExponent
  {
    var w := CeilLog2(splitExponent - msb + 1);
    var lsb := NumberAt(s, pos, w);
    Parsed(if msb + lsb > splitExponent then None else Some(Config(splitExponent, msb, lsb)), pos + w)
  }

  /** The part of `DecodeUintConfig` that reads the digit counts. */
  function ParseDigits(s: seq<bool>, pos: nat, splitExponent: nat): Parsed {
    var w := CeilLog2(splitExponent + 1);
    var msb := NumberAt(s, pos, w);
    if msb > splitExponent then Parsed(None, pos + w) else ParseLsb(s, pos + w, splitExponent, msb)
  }

  /** `DecodeUintConfig` on the bit string `s` from `pos` on. */
  function ParseConfig(s: seq<bool>, pos: nat, logAlphaSize: nat): Parsed {
    var w0 := CeilLog2(logAlphaSize + 1);
    var splitExponent := NumberAt(s, pos, w0);
    if splitExponent == logAlphaSize then Parsed(Some(Config(splitExponent, 0, 0)), pos + w0)
    else ParseDigits(s, pos + w0, splitExponent)
  }

  function DigitBits(cfg: Config): seq<bool>
    requires cfg.Valid()
  {
    FromNat(cfg.msbInToken, CeilLog2(cfg.splitExponent + 1))
    + FromNat(cfg.lsbInToken, CeilLog2(cfg.splitExponent - cfg.msbInToken + 1))
  }

  /** `EncodeUintConfig`. */
  function ConfigBits(cfg: Config, logAlphaSize: nat): seq<bool>
    requires cfg.Valid()
  {
    FromNat(cfg.splitExponent, CeilLog2(logAlphaSize + 1)) +
    if cfg.splitExponent == logAlphaSize then [] else DigitBits(cfg)
  }

  lemma FieldBound(s: seq<bool>, pos: nat, v: nat)
    requires v > 0
    ensures v <= 16 ==> CeilLog2(v) <= 4 && NumberAt(s, pos, CeilLog2(v)) < 16
  {
    ToNatBound(Stream(s, pos, CeilLog2(v)));
    if v <= 16 {
      Pow2Small();
      CeilLog2AtMost(v, 4);
      Pow2Monotone(CeilLog2(v), 4);
    }
  }

  /** Every accepted configuration satisfies the constructor's assertion. */
  lemma ParsedIsValid(s: seq<bool>, pos: nat, logAlphaSize: nat)
    requires logAlphaSize <= 15
    ensures var r := ParseConfig(s, pos, logAlphaSize);
            r.config.Some? ==> r.config.value.Valid()
  {
    FieldBound(s, pos, logAlphaSize + 1);
  }

  /** Whatever configuration the encoder writes is read back, except that the two digit counts do
      not matter, and become zero, when no token reaches the split token. */
  lemma ParseConfigBits(s: seq<bool>, pos: nat, cfg: Config, logAlphaSize: nat)
    requires cfg.Valid() && cfg.splitExponent <= logAlphaSize
    requires HoldsAt(s, pos, ConfigBits(cfg, logAlphaSize))
    ensures ParseConfig(s, pos, logAlphaSize) ==
            Parsed(Some(if cfg.splitExponent == logAlphaSize then Config(logAlphaSize, 0, 0) else cfg),
                   pos + |ConfigBits(cfg, logAlphaSize)|)
  {
    hide NumberAt, FromNat, CeilLog2;
    var w0 := CeilLog2(logAlphaSize + 1);
    HoldsAtSplit(s, pos, FromNat(cfg.splitExponent, w0),
                 if cfg.splitExponent == logAlphaSize then [] else DigitBits(cfg));
    HeldNumber(s, pos, cfg.splitExponent, w0);
    if cfg.splitExponent != logAlphaSize {
      ParseDigitBits(s, pos + w0, cfg);
    }
  }

  lemma TwoFields(s: seq<bool>, pos: nat, u: nat, m: nat, v: nat, n: nat)
    requires u < Pow2(m) && v < Pow2(n) && HoldsAt(s, pos, FromNat(u, m) + FromNat(v, n))
    ensures NumberAt(s, pos, m) == u && NumberAt(s, pos + m, n) == v
  {
    hide FromNat, NumberAt;
    HoldsAtSplit(s, pos, FromNat(u, m), FromNat(v, n));
    HeldNumber(s, pos, u, m);
    HeldNumber(s, pos + m, v, n);
  }

  lemma ParseDigitBits(s: seq<bool>, pos: nat, cfg: Config)
    requires cfg.Valid() && HoldsAt(s, pos, DigitBits(cfg))
    ensures ParseDigits(s, pos, cfg.splitExponent) == Parsed(Some(cfg), pos + |DigitBits(cfg)|)
  {
    hide FromNat, NumberAt, CeilLog2, HoldsAt;
    var w1 := CeilLog2(cfg.splitExponent + 1);
    var w2 := CeilLog2(cfg.splitExponent - cfg.msbInToken + 1);
    TwoFields(s, pos, cfg.msbInToken, w1, cfg.lsbInToken, w2);
  }

  method DecodeUintConfig(r: BitReader, logAlphaSize: nat) returns (config: Option<Config>)
    requires r.Valid() && logAlphaSize <= 15
    modifies r
    ensures r.Valid()
    ensures Parsed(config, r.Position()) == ParseConfig(ToBits(r.data), old(r.Position()), logAlphaSize)
    ensures config.Some? ==> config.value.Valid()
  {
    hide NumberAt, CeilLog2;
    ghost var s, start := ToBits(r.data), r.Position();
    FieldBound(s, start, logAlphaSize + 1);
    ParsedIsValid(s, start, logAlphaSize);
    var splitExponent := r.ReadBits(CeilLog2(logAlphaSize + 1));
    if splitExponent != logAlphaSize {
      config := DecodeDigits(r, splitExponent);
    } else {
      config := Some(Config(splitExponent, 0, 0));
    }
  }

  method DecodeDigits(r: BitReader, splitExponent: nat) returns (config: Option<Config>)
    requires r.Valid() && splitExponent <= 15
    modifies r
    ensures r.Valid()
    ensures Parsed(config, r.Position()) == ParseDigits(ToBits(r.data), old(r.Position()), splitExponent)
  {
    hide NumberAt, CeilLog2;
    FieldBound(ToBits(r.data), r.Position(), splitExponent + 1);
    var msbInToken := r.ReadBits(CeilLog2(splitExponent + 1));
    if msbInToken > splitExponent {
      return None;
    }
    config := DecodeLsb(r, splitExponent, msbInToken);
  }

  method DecodeLsb(r: BitReader, splitExponent: nat, msbInToken: nat) returns (config: Option<Config>)
    requires r.Valid() && msbInToken <= splitExponent <= 15
    modifies r
    ensures r.Valid()
    ensures Parsed(config, r.Position())
         == ParseLsb(ToBits(r.data), old(r.Position()), splitExponent, msbInToken)
  {
    hide NumberAt, CeilLog2;
    FieldBound(ToBits(r.data), r.Position(), splitExponent - msbInToken + 1);
    var lsbInToken := r.ReadBits(CeilLog2(splitExponent - msbInToken + 1));
    if lsbInToken + msbInToken > splitExponent {
      return None;
    }
    return Some(Config(splitExponent, msbInToken, lsbInToken));
  }
}
