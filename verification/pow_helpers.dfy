/** The integer helpers `powf` uses (`math_pow_helpers.c`): `checkint`,
    `zeroinfnan`, and the table-index computations of `log2_inline` and
    `exp2_inline`. The floating-point evaluation around them is not part
    of this model. */
module PowHelpers {
  import opened FloatBits

  /** What `checkint` reports about the value a binary32 encoding stands
      for. */
  datatype Integrality = NotInteger | OddInteger | EvenInteger

  /** The code `checkint` returns for each answer. */
  function KindCode(k: Integrality): (r: int)
    ensures 0 <= r <= 2
  {
    match k
    case NotInteger => 0
    case OddInteger => 1
    case EvenInteger => 2
  }

  /** The significand of a normal binary32 encoding, with its implicit
      leading one at bit 23. */
  function Significand(x: bv32): bv32 {
    MantissaField32(x) | 0x80_0000
  }

  /** The reference reading of an encoding with the given biased exponent
      and significand: a normal encoding stands for
      `significand * 2^(exponent - 150)`. Below exponent 127 the value is
      less than one (and not zero, which `checkint` is not given); above 150
      it is the significand shifted left, an even integer; in between, the
      value is an integer when shifting the significand right by
      `150 - exponent` and back loses nothing, and its parity is the low
      bit of what remains. */
  function IntegralityOf(exponent: bv32, significand: bv32): Integrality {
    if exponent < 127 then NotInteger
    else if exponent > 150 then EvenInteger
    else
      var fractionBits := 150 - exponent;
      var units := significand >> fractionBits;
      if units << fractionBits != significand then NotInteger
      else if units & 1 == 1 then OddInteger
      else EvenInteger
  }

  /** The code the reference reading gives for an encoding. */
  function ReferenceCode(x: bv32): int {
    KindCode(IntegralityOf(ExponentField32(x), Significand(x)))
  }

  /** `checkint`: 0 for a value that is not an integer, 1 for an odd
      integer, 2 for an even one. For exponents 127 to 150 it tests the
      encoding's bits below the units position with a mask, then the units
      bit itself; at exponent 127 the units bit is the exponent's own low
      bit, which stands in for the implicit leading one. */
  function Checkint(x: bv32): (r: int)
    ensures 0 <= r <= 2
    ensures ExponentField32(x) < 127 ==> r == 0
    ensures ExponentField32(x) > 150 ==> r == 2
  {
    var exponent := (x >> 23) & 0xFF;
    if exponent < 0x7F then 0
    else if exponent > 0x7F + 23 then 2
    else if x & ((1 << (0x7F + 23 - exponent)) - 1) != 0 then 0
    else if x & (1 << (0x7F + 23 - exponent)) != 0 then 1
    else 2
  }

  lemma CheckintAt127(x: bv32)
    requires ExponentField32(x) == 127
    ensures Checkint(x) == ReferenceCode(x)
    ensures Checkint(x ^ 0x8000_0000) == Checkint(x)
  {
  }

  lemma CheckintAt128(x: bv32)
    requires ExponentField32(x) == 128
    ensures Checkint(x) == ReferenceCode(x)
    ensures Checkint(x ^ 0x8000_0000) == Checkint(x)
  {
  }

  lemma CheckintAt129(x: bv32)
    requires ExponentField32(x) == 129
    ensures Checkint(x) == ReferenceCode(x)
    ensures Checkint(x ^ 0x8000_0000) == Checkint(x)
  {
  }

  lemma CheckintAt130(x: bv32)
    requires ExponentField32(x) == 130
    ensures Checkint(x) == ReferenceCode(x)
    ensures Checkint(x ^ 0x8000_0000) == Checkint(x)
  {
  }

  lemma CheckintAt131(x: bv32)
    requires ExponentField32(x) == 131
    ensures Checkint(x) == ReferenceCode(x)
    ensures Checkint(x ^ 0x8000_0000) == Checkint(x)
  {
  }

  lemma CheckintAt132(x: bv32)
    requires ExponentField32(x) == 132
    ensures Checkint(x) == ReferenceCode(x)
    ensures Checkint(x ^ 0x8000_0000) == Checkint(x)
  {
  }

  lemma CheckintAt133(x: bv32)
    requires ExponentField32(x) == 133
    ensures Checkint(x) == ReferenceCode(x)
    ensures Checkint(x ^ 0x8000_0000) == Checkint(x)
  {
  }

  lemma CheckintAt134(x: bv32)
    requires ExponentField32(x) == 134
    ensures Checkint(x) == ReferenceCode(x)
    ensures Checkint(x ^ 0x8000_0000) == Checkint(x)
  {
  }

  lemma CheckintAt135(x: bv32)
    requires ExponentField32(x) == 135
    ensures Checkint(x) == ReferenceCode(x)
    ensures Checkint(x ^ 0x8000_0000) == Checkint(x)
  {
  }

  lemma CheckintAt136(x: bv32)
    requires ExponentField32(x) == 136
    ensures Checkint(x) == ReferenceCode(x)
    ensures Checkint(x ^ 0x8000_0000) == Checkint(x)
  {
  }

  lemma CheckintAt137(x: bv32)
    requires ExponentField32(x) == 137
    ensures Checkint(x) == ReferenceCode(x)
    ensures Checkint(x ^ 0x8000_0000) == Checkint(x)
  {
  }

  lemma CheckintAt138(x: bv32)
    requires ExponentField32(x) == 138
    ensures Checkint(x) == ReferenceCode(x)
    ensures Checkint(x ^ 0x8000_0000) == Checkint(x)
  {
  }

  lemma CheckintAt139(x: bv32)
    requires ExponentField32(x) == 139
    ensures Checkint(x) == ReferenceCode(x)
    ensures Checkint(x ^ 0x8000_0000) == Checkint(x)
  {
  }

  lemma CheckintAt140(x: bv32)
    requires ExponentField32(x) == 140
    ensures Checkint(x) == ReferenceCode(x)
    ensures Checkint(x ^ 0x8000_0000) == Checkint(x)
  {
  }

  lemma CheckintAt141(x: bv32)
    requires ExponentField32(x) == 141
    ensures Checkint(x) == ReferenceCode(x)
    ensures Checkint(x ^ 0x8000_0000) == Checkint(x)
  {
  }

  lemma CheckintAt142(x: bv32)
    requires ExponentField32(x) == 142
    ensures Checkint(x) == ReferenceCode(x)
    ensures Checkint(x ^ 0x8000_0000) == Checkint(x)
  {
  }

  lemma CheckintAt143(x: bv32)
    requires ExponentField32(x) == 143
    ensures Checkint(x) == ReferenceCode(x)
    ensures Checkint(x ^ 0x8000_0000) == Checkint(x)
  {
  }

  lemma CheckintAt144(x: bv32)
    requires ExponentField32(x) == 144
    ensures Checkint(x) == ReferenceCode(x)
    ensures Checkint(x ^ 0x8000_0000) == Checkint(x)
  {
  }

  lemma CheckintAt145(x: bv32)
    requires ExponentField32(x) == 145
    ensures Checkint(x) == ReferenceCode(x)
    ensures Checkint(x ^ 0x8000_0000) == Checkint(x)
  {
  }

  lemma CheckintAt146(x: bv32)
    requires ExponentField32(x) == 146
    ensures Checkint(x) == ReferenceCode(x)
    ensures Checkint(x ^ 0x8000_0000) == Checkint(x)
  {
  }

  lemma CheckintAt147(x: bv32)
    requires ExponentField32(x) == 147
    ensures Checkint(x) == ReferenceCode(x)
    ensures Checkint(x ^ 0x8000_0000) == Checkint(x)
  {
  }

  lemma CheckintAt148(x: bv32)
    requires ExponentField32(x) == 148
    ensures Checkint(x) == ReferenceCode(x)
    ensures Checkint(x ^ 0x8000_0000) == Checkint(x)
  {
  }

  lemma CheckintAt149(x: bv32)
    requires ExponentField32(x) == 149
    ensures Checkint(x) == ReferenceCode(x)
    ensures Checkint(x ^ 0x8000_0000) == Checkint(x)
  {
  }

  lemma CheckintAt150(x: bv32)
    requires ExponentField32(x) == 150
    ensures Checkint(x) == ReferenceCode(x)
    ensures Checkint(x ^ 0x8000_0000) == Checkint(x)
  {
  }

  /** Both facts, by cases on the exponent. */
  lemma CheckintByExponent(x: bv32)
    ensures Checkint(x) == ReferenceCode(x)
    ensures Checkint(x ^ 0x8000_0000) == Checkint(x)
  {
    var e := ExponentField32(x);
    if e < 127 || e > 150 {
      assert ExponentField32(x ^ 0x8000_0000) == e;
    } else {
      if e <= 138 {
        if e <= 132 {
          if e <= 129 {
            if e <= 128 {
              if e <= 127 {
                CheckintAt127(x);
              } else {
                CheckintAt128(x);
              }
            } else {
              CheckintAt129(x);
            }
          } else {
            if e <= 131 {
              if e <= 130 {
                CheckintAt130(x);
              } else {
                CheckintAt131(x);
              }
            } else {
              CheckintAt132(x);
            }
          }
        } else {
          if e <= 135 {
            if e <= 134 {
              if e <= 133 {
                CheckintAt133(x);
              } else {
                CheckintAt134(x);
              }
            } else {
              CheckintAt135(x);
            }
          } else {
            if e <= 137 {
              if e <= 136 {
                CheckintAt136(x);
              } else {
                CheckintAt137(x);
              }
            } else {
              CheckintAt138(x);
            }
          }
        }
      } else {
        if e <= 144 {
          if e <= 141 {
            if e <= 140 {
              if e <= 139 {
                CheckintAt139(x);
              } else {
                CheckintAt140(x);
              }
            } else {
              CheckintAt141(x);
            }
          } else {
            if e <= 143 {
              if e <= 142 {
                CheckintAt142(x);
              } else {
                CheckintAt143(x);
              }
            } else {
              CheckintAt144(x);
            }
          }
        } else {
          if e <= 147 {
            if e <= 146 {
              if e <= 145 {
                CheckintAt145(x);
              } else {
                CheckintAt146(x);
              }
            } else {
              CheckintAt147(x);
            }
          } else {
            if e <= 149 {
              if e <= 148 {
                CheckintAt148(x);
              } else {
                CheckintAt149(x);
              }
            } else {
              CheckintAt150(x);
            }
          }
        }
      }
    }
  }

  /** `checkint` agrees with the reference reading on every encoding. */
  lemma CheckintMeaning(x: bv32)
    ensures Checkint(x) == ReferenceCode(x)
  {
    CheckintByExponent(x);
  }

  /** `checkint` does not look at the sign bit. */
  lemma CheckintIgnoresSign(x: bv32)
    ensures Checkint(x ^ 0x8000_0000) == Checkint(x)
  {
    CheckintByExponent(x);
  }

  /** `zeroinfnan`: `2 * x - 1 >= 2u * 0x7F800000 - 1` in `uint32_t`
      arithmetic. Doubling drops the sign bit; subtracting one sends the
      zeros to the largest value; what remains at or above the bound has
      an all-ones exponent. */
  function ZeroInfNan(x: bv32): (r: int)
    ensures r == 0 || r == 1
    ensures r == 1 <==> Class32(x) == Zero || Class32(x) == Infinite || Class32(x) == Nan
  {
    if 2 * x - 1 >= 2 * 0x7F80_0000 - 1 then 1 else 0
  }

  /** `zeroinfnan` does not look at the sign bit. */
  lemma ZeroInfNanIgnoresSign(x: bv32)
    ensures ZeroInfNan(x ^ 0x8000_0000) == ZeroInfNan(x)
  {
    assert ExponentField32(x ^ 0x8000_0000) == ExponentField32(x);
    assert MantissaField32(x ^ 0x8000_0000) == MantissaField32(x);
  }

  /** `log2inline_OFF`. */
  const LogOffset: bv32 := 0x3F33_0000

  /** The integer part of `log2_inline`: `tmp = ix - OFF`, the table
      index `(tmp >> 19) % 16`, and `iz = ix - (tmp & 0xff800000)`. The
      index is within the 16-entry table, `iz` lies in the interval of
      2^23 encodings starting at `OFF`, and the index is the top four bits
      of `iz`'s offset in that interval: it picks the subinterval. */
  function LogReduce(ix: bv32): (r: (bv32, bv32))
    ensures r.0 < 16
    ensures r.1 - LogOffset < 0x80_0000
    ensures r.0 == (r.1 - LogOffset) >> 19
  {
    var tmp := ix - LogOffset;
    var i := (tmp >> 19) % 16;
    var top := tmp & 0xFF80_0000;
    (i, ix - top)
  }

  /** The integer part of `exp2_inline`: the table index `ki % 32`, which
      is within the 32-entry table. */
  function ExpIndex(ki: bv64): (i: bv64)
    ensures i < 32
  {
    ki % 32
  }

  /** The index is the low five bits of `ki`, so `ki` and `ki + 32 * n`
      share an entry. */
  lemma ExpIndexPeriodic(ki: bv64, n: bv64)
    ensures ExpIndex(ki) == ki & 31
    ensures ExpIndex(ki + 32 * n) == ExpIndex(ki)
  {
  }
}
