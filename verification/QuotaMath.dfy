/** Saturating quota conversions (common/quota_math.go). */
module QuotaMath {
  import opened Options

  const MAX_QUOTA := 0x7FFF_FFFF
  const MIN_QUOTA := -0x8000_0000

  /** A float64: a real number where rounding is not the point, or one of the three special values. */
  datatype Float = NaN | PosInf | NegInf | Fin(value: real)

  datatype ClampKind = Overflow | Underflow | NotANumber

  datatype Quota = Quota(amount: int, clamp: Option<ClampKind>)

  predicate Leq(a: Float, b: Float) {
    match (a, b)
    case (NaN, _) => false
    case (_, NaN) => false
    case (NegInf, _) => true
    case (_, PosInf) => true
    case (Fin(x), Fin(y)) => x <= y
    case (PosInf, _) => false
    case (_, NegInf) => false
  }

  /** Go's `int(value)`: truncation toward zero. */
  function Truncate(r: real): int {
    if r >= 0.0 then r.Floor else -((-r).Floor)
  }

  /** `math.Round` and `decimal.Round(0)`: to the nearest integer, halves away from zero. */
  function RoundAway(r: real): int {
    if r >= 0.0 then (r + 0.5).Floor else -((-r + 0.5).Floor)
  }

  function RoundFloat(v: Float): Float {
    if v.Fin? then Fin(RoundAway(v.value) as real) else v
  }

  function Saturate(v: Float): Quota {
    match v
    case NaN => Quota(0, Some(NotANumber))
    case PosInf => Quota(MAX_QUOTA, Some(Overflow))
    case NegInf => Quota(MIN_QUOTA, Some(Underflow))
    case Fin(r) =>
      if r >= MAX_QUOTA as real then Quota(MAX_QUOTA, Some(Overflow))
      else if r <= MIN_QUOTA as real then Quota(MIN_QUOTA, Some(Underflow))
      else Quota(Truncate(r), None)
  }

  function FromFloat(v: Float): Quota { Saturate(v) }

  function Round(v: Float): Quota { Saturate(RoundFloat(v)) }

  /** `convert` is `Decimal.Float64` on an already rounded decimal. */
  function FromDecimal(d: real, convert: int -> Float): Quota { Saturate(convert(RoundAway(d))) }

  /** The strict forms hand out an amount only when nothing was clamped. */
  function Strict(q: Quota): Option<int> {
    if q.clamp.Some? then None else Some(q.amount)
  }

  lemma RoundAwayIsNearest(r: real)
    ensures var n := RoundAway(r) as real; -0.5 <= n - r <= 0.5
    ensures r - RoundAway(r) as real == 0.5 ==> r < 0.0
    ensures RoundAway(r) as real - r == 0.5 ==> r > 0.0
  {
  }

  lemma RoundAwayMonotone(a: real, b: real)
    requires a <= b
    ensures RoundAway(a) <= RoundAway(b)
  {
  }

  /** In the int32 range, with the sign of the value; not-a-number reported as such. */
  ghost predicate Safe(v: Float, q: Quota) {
    && MIN_QUOTA <= q.amount <= MAX_QUOTA
    && (Leq(Fin(0.0), v) ==> q.amount >= 0)
    && (Leq(v, Fin(0.0)) ==> q.amount <= 0)
    && (v.NaN? <==> q.clamp == Some(NotANumber))
  }

  lemma SaturationIsSafe(v: Float)
    ensures Safe(v, Saturate(v))
  {
  }

  lemma ConversionIsSafe(v: Float)
    ensures Safe(v, FromFloat(v)) && Safe(v, Round(v))
  {
    SaturationIsSafe(v);
    SaturationIsSafe(RoundFloat(v));
    if v.Fin? {
      if v.value >= 0.0 { RoundAwayMonotone(0.0, v.value); }
      if v.value <= 0.0 { RoundAwayMonotone(v.value, 0.0); }
    }
  }

  /** Which bound is hit, and what is handed out then; not-a-number gives zero. */
  lemma ClampsExactly(v: Float)
    ensures FromFloat(v).clamp == Some(Overflow) <==> v.PosInf? || (v.Fin? && v.value >= 2147483647.0)
    ensures FromFloat(v).clamp == Some(Underflow) <==> v.NegInf? || (v.Fin? && v.value <= -2147483648.0)
    ensures FromFloat(v).clamp == Some(NotANumber) <==> v.NaN?
    ensures forall q :: q == FromFloat(v) || q == Round(v) ==>
              && (q.clamp == Some(Overflow) ==> q.amount == 2147483647)
              && (q.clamp == Some(Underflow) ==> q.amount == -2147483648)
              && (q.clamp == Some(NotANumber) ==> q.amount == 0)
  {
  }

  /** Nothing is clamped exactly inside the open range, and only then do the strict forms succeed. */
  lemma UnclampedIff(v: Float)
    ensures Strict(FromFloat(v)).Some? <==> v.Fin? && MIN_QUOTA as real < v.value < MAX_QUOTA as real
    ensures Strict(FromFloat(v)).Some? ==> Strict(FromFloat(v)).value == FromFloat(v).amount
    ensures Strict(Round(v)) == if v.Fin? && MIN_QUOTA < RoundAway(v.value) < MAX_QUOTA then Some(RoundAway(v.value)) else None
  {
  }

  /** A larger value never converts to a smaller quota. */
  lemma ConversionIsMonotone(a: Float, b: Float)
    requires Leq(a, b)
    ensures FromFloat(a).amount <= FromFloat(b).amount
    ensures Round(a).amount <= Round(b).amount
  {
    if a.Fin? && b.Fin? { RoundAwayMonotone(a.value, b.value); }
  }

  /** Off the bounds, truncation goes to the integer next to the value on the side of zero. */
  lemma TruncationGoesTowardZero(v: Float)
    requires FromFloat(v).clamp.None?
    ensures var n := FromFloat(v).amount as real;
            if v.value >= 0.0 then n <= v.value < n + 1.0 else n - 1.0 < v.value <= n
  {
  }

  lemma TruncationAndRoundingAgree(v: Float)
    ensures -1 <= Round(v).amount - FromFloat(v).amount <= 1
  {
  }

  const TWO53 := 0x20_0000_0000_0000

  /** Any rounding of integers to float64: exact up to 2^53, never NaN, never out of order. */
  ghost predicate Faithful(convert: int -> Float) {
    && (forall n :: -TWO53 <= n <= TWO53 ==> convert(n) == Fin(n as real))
    && (forall n, m :: n <= m ==> Leq(convert(n), convert(m)))
  }

  function Clamped(n: int): int {
    if n >= MAX_QUOTA then MAX_QUOTA else if n <= MIN_QUOTA then MIN_QUOTA else n
  }

  /** The decimal path is the exact clamp of the rounded decimal, although it goes through a float. */
  lemma DecimalPathIsExact(d: real, convert: int -> Float)
    requires Faithful(convert)
    ensures var n := RoundAway(d);
            && FromDecimal(d, convert).amount == Clamped(n)
            && (FromDecimal(d, convert).clamp.None? <==> -2147483648 < n < 2147483647)
            && (FromDecimal(d, convert).clamp == Some(Overflow) <==> n >= 2147483647)
            && (FromDecimal(d, convert).clamp == Some(Underflow) <==> n <= -2147483648)
  {
    var n := RoundAway(d);
    if n > TWO53 {
      assert Leq(convert(TWO53), convert(n));
    } else if n < -TWO53 {
      assert Leq(convert(n), convert(-TWO53));
    }
  }
}
