/** `fminf`/`fmin` and `fmaxf`/`fmax` (`math.c`): NaN arguments are
    ignored, arguments of different sign are decided by the sign bit (so
    -0 is below +0, as Annex F.9.9.2 of C99 asks), and otherwise the `<`
    comparison picks.

    The `float` and `double` versions have the same selection logic, so one
    model serves both. Values are abstract: a NaN, an infinity, or a finite
    value given by its sign and magnitude; which bits encode them is not
    part of this model. */
module FMinMax {

  datatype Value =
    | NaN
    | Infinity(negative: bool)
    | Finite(negative: bool, magnitude: real)

  /** Finite magnitudes are non-negative, and a non-zero finite value's
      sign is its sign bit. */
  predicate Valid(v: Value) {
    v.Finite? ==> v.magnitude >= 0.0
  }

  /** `isnan`. */
  predicate IsNan(v: Value) {
    v.NaN?
  }

  /** `signbit`, for values that are not NaN. */
  predicate SignBit(v: Value)
    requires !v.NaN?
  {
    v.negative
  }

  function RealOf(v: Value): real
    requires v.Finite?
  {
    if v.negative then -v.magnitude else v.magnitude
  }

  /** The C `<` on two values that are not NaN: -0 and +0 compare
      equal. */
  predicate Less(a: Value, b: Value)
    requires !a.NaN? && !b.NaN?
  {
    if a.Infinity? && b.Infinity? then a.negative && !b.negative
    else if a.Infinity? then a.negative
    else if b.Infinity? then !b.negative
    else RealOf(a) < RealOf(b)
  }

  /** The order the results follow: by value, and -0 before +0. */
  predicate AtMost(a: Value, b: Value)
    requires !a.NaN? && !b.NaN?
  {
    Less(a, b) || (!Less(b, a) && (a.negative || !b.negative))
  }

  /** `fmin`: a NaN argument gives the other one; different sign bits give
      the negative argument; otherwise the smaller under `<`, the second
      on a tie. */
  function Fmin(a: Value, b: Value): (r: Value)
    requires Valid(a) && Valid(b)
    ensures r == a || r == b
    ensures IsNan(a) ==> r == b
    ensures !IsNan(a) && IsNan(b) ==> r == a
    ensures !IsNan(a) && !IsNan(b) ==> AtMost(r, a) && AtMost(r, b)
  {
    if IsNan(a) then b
    else if IsNan(b) then a
    else if SignBit(a) != SignBit(b) then (if SignBit(a) then a else b)
    else if Less(a, b) then a
    else b
  }

  /** `fmax`: as `fmin`, but different sign bits give the positive
      argument and `<` picks the larger, the first on a tie. */
  function Fmax(a: Value, b: Value): (r: Value)
    requires Valid(a) && Valid(b)
    ensures r == a || r == b
    ensures IsNan(a) ==> r == b
    ensures !IsNan(a) && IsNan(b) ==> r == a
    ensures !IsNan(a) && !IsNan(b) ==> AtMost(a, r) && AtMost(b, r)
  {
    if IsNan(a) then b
    else if IsNan(b) then a
    else if SignBit(a) != SignBit(b) then (if SignBit(a) then b else a)
    else if Less(a, b) then b
    else a
  }

  /** Two valid values that are each at most the other are the same
      value, so the order has no ties. */
  lemma AtMostAntisymmetric(a: Value, b: Value)
    requires Valid(a) && Valid(b) && !IsNan(a) && !IsNan(b)
    requires AtMost(a, b) && AtMost(b, a)
    ensures a == b
  {
  }

  /** Argument order does not matter. */
  lemma FminCommutes(a: Value, b: Value)
    requires Valid(a) && Valid(b)
    ensures Fmin(a, b) == Fmin(b, a)
    ensures Fmax(a, b) == Fmax(b, a)
  {
    if !IsNan(a) && !IsNan(b) {
      if AtMost(a, b) && AtMost(b, a) {
        AtMostAntisymmetric(a, b);
      }
    }
  }

  /** The value with the sign bit flipped. */
  function Negate(v: Value): (r: Value)
    ensures Valid(v) ==> Valid(r)
    ensures IsNan(r) <==> IsNan(v)
    ensures !IsNan(v) ==> SignBit(r) != SignBit(v)
  {
    match v
    case NaN => NaN
    case Infinity(n) => Infinity(!n)
    case Finite(n, m) => Finite(!n, m)
  }

  /** Negating twice gives the value back. */
  lemma NegateInvolutive(v: Value)
    ensures Negate(Negate(v)) == v
  {
  }

  /** Negation reverses the order. */
  lemma NegateReverses(a: Value, b: Value)
    requires !IsNan(a) && !IsNan(b)
    ensures AtMost(Negate(a), Negate(b)) <==> AtMost(b, a)
  {
  }

  /** `fmax` is `fmin` seen through negation. */
  lemma FmaxIsNegatedFmin(a: Value, b: Value)
    requires Valid(a) && Valid(b)
    ensures Fmax(a, b) == Negate(Fmin(Negate(a), Negate(b)))
  {
    if !IsNan(a) && !IsNan(b) && SignBit(a) == SignBit(b) {
      var r := Fmin(Negate(a), Negate(b));
      if !Less(a, b) && !Less(b, a) {
        AtMostAntisymmetric(a, b);
      }
    }
  }

  /** The signed-zero cases: both orders of -0 and +0 give -0 from `fmin`
      and +0 from `fmax`. */
  lemma SignedZeros()
    ensures Fmin(Finite(false, 0.0), Finite(true, 0.0)) == Finite(true, 0.0)
    ensures Fmin(Finite(true, 0.0), Finite(false, 0.0)) == Finite(true, 0.0)
    ensures Fmax(Finite(false, 0.0), Finite(true, 0.0)) == Finite(false, 0.0)
    ensures Fmax(Finite(true, 0.0), Finite(false, 0.0)) == Finite(false, 0.0)
  {
  }
}
