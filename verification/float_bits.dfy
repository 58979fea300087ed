/** The bit-level float helpers of `math.c` and `math.h`: classification
    (`__fpclassifyf`, `__fpclassify`), the `isnan`, `isinf` and `signbit`
    macros, and the `__FLOAT_BITS`/`__DOUBLE_BITS` reinterpretations.

    A `float` is identified with its IEEE 754 binary32 encoding (a `bv32`)
    and a `double` with its binary64 encoding (a `bv64`). Each operation is
    written the way the source computes it, with shifts and masks, and is
    proved against a reference classification read off the encoding's
    fields as section 3.4 of IEEE 754-2008 lays them out. */
module FloatBits {

  /** The five classes `fpclassify` tells apart. */
  datatype FpClass = Nan | Infinite | Zero | Subnormal | Normal

  /** The `FP_*` constant for each class (`math.h`). */
  function ClassCode(c: FpClass): (r: int)
    ensures 0 <= r <= 4
  {
    match c
    case Nan => 0
    case Infinite => 1
    case Zero => 2
    case Subnormal => 3
    case Normal => 4
  }

  /** The five constants are distinct, so a code names one class. */
  lemma ClassCodeInjective(a: FpClass, b: FpClass)
    requires ClassCode(a) == ClassCode(b)
    ensures a == b
  {
  }

  /** The class of an encoding from its biased exponent and trailing
      significand: all-ones exponent is infinity or NaN, zero exponent is
      zero or subnormal, anything else is normal. */
  function ClassOf(exponent: nat, maxExponent: nat, mantissaIsZero: bool): FpClass {
    if exponent == maxExponent then (if mantissaIsZero then Infinite else Nan)
    else if exponent == 0 then (if mantissaIsZero then Zero else Subnormal)
    else Normal
  }

  // ---------------------------------------------------------------
  // binary32

  /** A `float`, as the bits that encode it. */
  datatype Float32 = Float32(bits: bv32)

  /** `__FLOAT_BITS`: the union read of the `float` as an `unsigned`. */
  function FloatBits(value: Float32): (r: bv32)
    ensures Float32(r) == value
  {
    value.bits
  }

  /** Reading a float's bits changes nothing: different floats give
      different bits. */
  lemma FloatBitsInjective(a: Float32, b: Float32)
    requires FloatBits(a) == FloatBits(b)
    ensures a == b
  {
  }

  function SignField32(x: bv32): bv32 {
    x >> 31
  }

  function ExponentField32(x: bv32): bv32 {
    (x >> 23) & 0xFF
  }

  function MantissaField32(x: bv32): bv32 {
    x & 0x7F_FFFF
  }

  /** The encoding with the given fields. */
  function Encode32(sign: bv32, exponent: bv32, mantissa: bv32): bv32
    requires sign < 2 && exponent < 0x100 && mantissa < 0x80_0000
  {
    (sign << 31) | (exponent << 23) | mantissa
  }

  /** The fields and the encoding determine each other. */
  lemma Fields32RoundTrip(x: bv32, sign: bv32, exponent: bv32, mantissa: bv32)
    requires sign < 2 && exponent < 0x100 && mantissa < 0x80_0000
    ensures Encode32(SignField32(x), ExponentField32(x), MantissaField32(x)) == x
    ensures var y := Encode32(sign, exponent, mantissa);
            SignField32(y) == sign && ExponentField32(y) == exponent && MantissaField32(y) == mantissa
  {
  }

  /** The class of a binary32 encoding, from its fields. */
  function Class32(x: bv32): FpClass {
    ClassOf(ExponentField32(x) as nat, 0xFF, MantissaField32(x) == 0)
  }

  /** `__fpclassifyf`: the exponent is `(bits >> 23) & 0xFF`; with a zero
      exponent, `bits << 1` tells zero from subnormal; with an all-ones
      exponent, `bits << 9` tells infinity from NaN. */
  function FpClassifyF(x: bv32): (r: int)
    ensures r == ClassCode(Class32(x))
  {
    var exponent := (x >> 23) & 0xFF;
    if exponent == 0 then (if x << 1 != 0 then 3 else 2)
    else if exponent == 0xFF then (if x << 9 != 0 then 0 else 1)
    else 4
  }

  /** `isnan` on a `float`: the magnitude bits exceed those of infinity. */
  function IsNanF(x: bv32): (r: bool)
    ensures r <==> Class32(x) == Nan
  {
    x & 0x7FFF_FFFF > 0x7F80_0000
  }

  /** `isinf` on a `float`: the magnitude bits are those of infinity. */
  function IsInfF(x: bv32): (r: bool)
    ensures r <==> Class32(x) == Infinite
  {
    x & 0x7FFF_FFFF == 0x7F80_0000
  }

  /** `signbit` on a `float`: bit 31, as an `int`. */
  function SignBitF(x: bv32): (r: int)
    ensures r == 0 || r == 1
    ensures r == 1 <==> SignField32(x) == 1
  {
    if x >> 31 == 1 then 1 else 0
  }

  /** The macros agree with the classifier, and no encoding is both NaN
      and infinite. */
  lemma MacrosAgree32(x: bv32)
    ensures IsNanF(x) <==> FpClassifyF(x) == 0
    ensures IsInfF(x) <==> FpClassifyF(x) == 1
    ensures !(IsNanF(x) && IsInfF(x))
  {
    if FpClassifyF(x) == 0 {
      ClassCodeInjective(Class32(x), Nan);
    }
    if FpClassifyF(x) == 1 {
      ClassCodeInjective(Class32(x), Infinite);
    }
  }

  /** Flipping the sign bit changes `signbit` and nothing else the
      helpers look at. */
  lemma SignIgnored32(x: bv32)
    ensures FpClassifyF(x ^ 0x8000_0000) == FpClassifyF(x)
    ensures IsNanF(x ^ 0x8000_0000) == IsNanF(x)
    ensures IsInfF(x ^ 0x8000_0000) == IsInfF(x)
    ensures SignBitF(x ^ 0x8000_0000) == 1 - SignBitF(x)
  {
    assert ExponentField32(x ^ 0x8000_0000) == ExponentField32(x);
    assert MantissaField32(x ^ 0x8000_0000) == MantissaField32(x);
  }

  // ---------------------------------------------------------------
  // binary64

  /** A `double`, as the bits that encode it. */
  datatype Float64 = Float64(bits: bv64)

  /** `__DOUBLE_BITS`: the union read of the `double` as an
      `unsigned long long`. */
  function DoubleBits(value: Float64): (r: bv64)
    ensures Float64(r) == value
  {
    value.bits
  }

  /** Different doubles give different bits. */
  lemma DoubleBitsInjective(a: Float64, b: Float64)
    requires DoubleBits(a) == DoubleBits(b)
    ensures a == b
  {
  }

  function SignField64(x: bv64): bv64 {
    x >> 63
  }

  function ExponentField64(x: bv64): bv64 {
    (x >> 52) & 0x7FF
  }

  function MantissaField64(x: bv64): bv64 {
    x & 0xF_FFFF_FFFF_FFFF
  }

  /** The encoding with the given fields. */
  function Encode64(sign: bv64, exponent: bv64, mantissa: bv64): bv64
    requires sign < 2 && exponent < 0x800 && mantissa < 0x10_0000_0000_0000
  {
    (sign << 63) | (exponent << 52) | mantissa
  }

  /** The fields and the encoding determine each other. */
  lemma Fields64RoundTrip(x: bv64, sign: bv64, exponent: bv64, mantissa: bv64)
    requires sign < 2 && exponent < 0x800 && mantissa < 0x10_0000_0000_0000
    ensures Encode64(SignField64(x), ExponentField64(x), MantissaField64(x)) == x
    ensures var y := Encode64(sign, exponent, mantissa);
            SignField64(y) == sign && ExponentField64(y) == exponent && MantissaField64(y) == mantissa
  {
  }

  /** The class of a binary64 encoding, from its fields. */
  function Class64(x: bv64): FpClass {
    ClassOf(ExponentField64(x) as nat, 0x7FF, MantissaField64(x) == 0)
  }

  /** `__fpclassify`: the same tests with an 11-bit exponent, using
      `bits << 1` and `bits << 12`. */
  function FpClassify(x: bv64): (r: int)
    ensures r == ClassCode(Class64(x))
  {
    var e := (x >> 52) & 0x7FF;
    if e == 0 then (if x << 1 != 0 then 3 else 2)
    else if e == 0x7FF then (if x << 12 != 0 then 0 else 1)
    else 4
  }

  /** `isnan` on a `double`: the magnitude bits, `bits & -1ULL>>1`,
      exceed `0x7ffULL<<52`. */
  function IsNan(x: bv64): (r: bool)
    ensures r <==> Class64(x) == Nan
  {
    x & (0xFFFF_FFFF_FFFF_FFFF >> 1) > 0x7FF << 52
  }

  /** `isinf` on a `double`: the magnitude bits equal `0x7ffULL<<52`. */
  function IsInf(x: bv64): (r: bool)
    ensures r <==> Class64(x) == Infinite
  {
    x & (0xFFFF_FFFF_FFFF_FFFF >> 1) == 0x7FF << 52
  }

  /** `signbit` on a `double`: bit 63, as an `int`. */
  function SignBit(x: bv64): (r: int)
    ensures r == 0 || r == 1
    ensures r == 1 <==> SignField64(x) == 1
  {
    if x >> 63 == 1 then 1 else 0
  }

  /** The macros agree with the classifier, and no encoding is both NaN
      and infinite. */
  lemma MacrosAgree64(x: bv64)
    ensures IsNan(x) <==> FpClassify(x) == 0
    ensures IsInf(x) <==> FpClassify(x) == 1
    ensures !(IsNan(x) && IsInf(x))
  {
    if FpClassify(x) == 0 {
      ClassCodeInjective(Class64(x), Nan);
    }
    if FpClassify(x) == 1 {
      ClassCodeInjective(Class64(x), Infinite);
    }
  }

  /** Flipping the sign bit changes `signbit` and nothing else the
      helpers look at. */
  lemma SignIgnored64(x: bv64)
    ensures FpClassify(x ^ 0x8000_0000_0000_0000) == FpClassify(x)
    ensures IsNan(x ^ 0x8000_0000_0000_0000) == IsNan(x)
    ensures IsInf(x ^ 0x8000_0000_0000_0000) == IsInf(x)
    ensures SignBit(x ^ 0x8000_0000_0000_0000) == 1 - SignBit(x)
  {
    assert ExponentField64(x ^ 0x8000_0000_0000_0000) == ExponentField64(x);
    assert MantissaField64(x ^ 0x8000_0000_0000_0000) == MantissaField64(x);
  }
}
