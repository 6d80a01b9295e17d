/**
 * `time_bucket` on integer time: round a timestamp down to a multiple of
 * the bucket width. The source computes the bucket with C's truncating
 * division and then corrects negative timestamps by one width, raising an
 * error when the corrected bucket would fall below the type's minimum.
 */
module TimeBucket {
  import opened Wrappers

  newtype Int16 = x: int | -0x8000 <= x < 0x8000
  newtype Int32 = x: int | -0x8000_0000 <= x < 0x8000_0000
  newtype Int64 = x: int | -0x8000_0000_0000_0000 <= x < 0x8000_0000_0000_0000

  datatype BucketError =
    | NonPositivePeriod  // "period must be greater then 0"
    | OutOfRange         // "timestamp out of range"

  /** C's `/` by a positive divisor: the quotient truncated toward zero. */
  function CDiv(a: int, b: int): int
    requires b > 0
  {
    if a >= 0 then a / b else -((-a) / b)
  }

  /** C's `%` by a positive divisor: the remainder matching `CDiv`, carrying the sign of the dividend. */
  function CRem(a: int, b: int): int
    requires b > 0
  {
    if a >= 0 then a % b else -((-a) % b)
  }

  /** The floor multiple of a positive width, by Euclidean division. */
  function FloorMultiple(period: int, ts: int): int
    requires period > 0
  {
    ts / period * period
  }

  /** A positive multiple of a positive number is at least that number. */
  lemma MulAtLeast(x: int, b: int)
    requires x >= 1 && b > 0
    ensures x * b >= b
  {
    assert x * b == (x - 1) * b + b;
  }

  /** Euclidean division is determined by any quotient/remainder pair with the remainder in range. */
  lemma {:induction false} DivUnique(a: int, b: int, q: int, r: int)
    requires 0 < b && 0 <= r < b && a == q * b + r
    ensures a / b == q
  {
    var q' := a / b;
    var r' := a % b;
    assert a == q' * b + r';
    assert (q - q') * b == q * b - q' * b;
    if q > q' {
      MulAtLeast(q - q', b);
    } else if q < q' {
      assert (q' - q) * b == q' * b - q * b;
      MulAtLeast(q' - q, b);
    }
  }

  /**
   * C's truncated quotient is the floor quotient, plus one exactly when the
   * dividend is negative and the division inexact.
   */
  lemma {:induction false} TruncatedQuotient(a: int, b: int)
    requires b > 0
    ensures a >= 0 || CRem(a, b) == 0 ==> CDiv(a, b) == a / b
    ensures a < 0 && CRem(a, b) != 0 ==> CDiv(a, b) == a / b + 1
  {
    if a < 0 {
      var q := (-a) / b;
      var r := (-a) % b;
      assert a == (-q) * b - r;
      if r == 0 {
        DivUnique(a, b, -q, 0);
      } else {
        assert a == (-q - 1) * b + (b - r);
        DivUnique(a, b, -q - 1, b - r);
      }
    }
  }

  /** The truncated multiple the macro computes first, against the floor multiple. */
  lemma {:induction false} TruncatedMultiple(period: int, ts: int)
    requires period > 0
    ensures ts < 0 && CRem(ts, period) != 0 ==> CDiv(ts, period) * period == FloorMultiple(period, ts) + period
    ensures !(ts < 0 && CRem(ts, period) != 0) ==> CDiv(ts, period) * period == FloorMultiple(period, ts)
  {
    TruncatedQuotient(ts, period);
    if ts < 0 && CRem(ts, period) != 0 {
      assert CDiv(ts, period) * period == (ts / period) * period + period;
    }
  }

  /** A non-negative timestamp has a non-negative floor multiple. */
  lemma {:induction false} FloorOfNonneg(period: int, ts: int)
    requires period > 0 && ts >= 0
    ensures FloorMultiple(period, ts) >= 0
  {
    DivNonneg(ts, period);
    MulNonneg(ts / period, period);
  }

  /** When C's remainder is zero the timestamp is its own floor multiple. */
  lemma {:induction false} ExactIsOwnFloor(period: int, ts: int)
    requires period > 0 && CRem(ts, period) == 0
    ensures FloorMultiple(period, ts) == ts
  {
    if ts >= 0 {
      assert ts == ts / period * period + ts % period;
    } else {
      var q := (-ts) / period;
      assert -ts == q * period + (-ts) % period;
      assert ts == (-q) * period;
      MultipleIsExact(period, -q);
    }
  }

  /** Dividing a non-negative number by a positive one gives a non-negative quotient. */
  lemma {:induction false} DivNonneg(a: int, b: int)
    requires a >= 0 && b > 0
    ensures a / b >= 0
  {
    var q := a / b;
    assert a == q * b + a % b;
    if q < 0 {
      MulAtLeast(-q, b);
    }
  }

  lemma MulNonneg(x: int, y: int)
    requires x >= 0 && y >= 0
    ensures x * y >= 0
  {
  }

  /**
   * The `TIME_BUCKET` macro over a signed type whose least value is `min`:
   * the timestamp is a value of that type, and the width has the same type.
   * Its result is the floor multiple of the width, or the range error when
   * that multiple is below the type's minimum.
   */
  function Bucket(period: int, ts: int, min: int): (r: Result<int, BucketError>)
    requires min < 0 && min <= ts
    ensures period <= 0 <==> r == Failure(NonPositivePeriod)
    ensures period > 0 ==> (r.Success? <==> FloorMultiple(period, ts) >= min)
    ensures period > 0 && r.Success? ==> r.value == FloorMultiple(period, ts)
    ensures period > 0 && r.Failure? ==> r.error == OutOfRange
  {
    if period <= 0 then Failure(NonPositivePeriod)
    else
      var result := CDiv(ts, period) * period;
      TruncatedMultiple(period, ts);
      if ts < 0 && CRem(ts, period) != 0 then
        if result < min + period then Failure(OutOfRange)
        else Success(result - period)
      else if ts >= 0 then
        FloorOfNonneg(period, ts);
        Success(result)
      else
        ExactIsOwnFloor(period, ts);
        Success(result)
  }

  /** A multiple of the width is its own floor multiple. */
  lemma {:induction false} MultipleIsExact(period: int, q: int)
    requires period > 0
    ensures (q * period) / period == q && (q * period) % period == 0
  {
    DivUnique(q * period, period, q, 0);
  }

  /** No multiple of the width above the floor multiple is at or below the timestamp. */
  lemma {:induction false} FloorMultipleIsLargest(period: int, ts: int, m: int)
    requires period > 0 && m * period <= ts
    ensures m * period <= FloorMultiple(period, ts)
  {
    var q := ts / period;
    assert ts == q * period + ts % period;
    if m > q {
      assert m * period == (m - q) * period + q * period;
      MulAtLeast(m - q, period);
    }
  }

  /**
   * The partner of `Bucket`: the floor multiple is a multiple of the width,
   * the timestamp lies in the bucket it starts, and no larger multiple is at
   * or below the timestamp.
   */
  lemma {:induction false} FloorMultipleIsBucketStart(period: int, ts: int)
    requires period > 0
    ensures FloorMultiple(period, ts) % period == 0
    ensures FloorMultiple(period, ts) <= ts < FloorMultiple(period, ts) + period
    ensures forall m: int :: m * period <= ts ==> m * period <= FloorMultiple(period, ts)
  {
    MultipleIsExact(period, ts / period);
    assert ts == ts / period * period + ts % period;
    forall m: int | m * period <= ts
      ensures m * period <= FloorMultiple(period, ts)
    {
      FloorMultipleIsLargest(period, ts, m);
    }
  }

  /** Only a timestamp within one width of the minimum, in an inexact bucket, is out of range. */
  lemma {:induction false} OutOfRangeOnlyNearMinimum(period: int, ts: int, min: int)
    requires min < 0 && min <= ts && period > 0
    ensures Bucket(period, ts, min) == Failure(OutOfRange) ==> ts < min + period && ts % period != 0
  {
    FloorMultipleIsBucketStart(period, ts);
    var q := ts / period;
    assert ts == q * period + ts % period;
  }

  /** A bucket boundary is its own bucket. */
  lemma {:induction false} BucketIdempotent(period: int, ts: int, min: int)
    requires min < 0 && min <= ts && period > 0 && Bucket(period, ts, min).Success?
    ensures Bucket(period, Bucket(period, ts, min).value, min) == Bucket(period, ts, min)
  {
    var q := ts / period;
    DivUnique(q * period, period, q, 0);
  }

  /** `int16_bucket`: argument 0 is the width, argument 1 the timestamp. */
  function Int16Bucket(period: Int16, ts: Int16): (r: Result<Int16, BucketError>)
    ensures period <= 0 ==> r == Failure(NonPositivePeriod)
    ensures period > 0 ==> (r.Success? <==> FloorMultiple(period as int, ts as int) >= -0x8000)
    ensures period > 0 && r.Success? ==> r.value as int == FloorMultiple(period as int, ts as int)
    ensures period > 0 && r.Failure? ==> r.error == OutOfRange
  {
    CastInt16(Bucket(period as int, ts as int, -0x8000))
  }

  /** `int32_bucket`. */
  function Int32Bucket(period: Int32, ts: Int32): (r: Result<Int32, BucketError>)
    ensures period <= 0 ==> r == Failure(NonPositivePeriod)
    ensures period > 0 ==> (r.Success? <==> FloorMultiple(period as int, ts as int) >= -0x8000_0000)
    ensures period > 0 && r.Success? ==> r.value as int == FloorMultiple(period as int, ts as int)
    ensures period > 0 && r.Failure? ==> r.error == OutOfRange
  {
    CastInt32(Bucket(period as int, ts as int, -0x8000_0000))
  }

  /** `int64_bucket`. */
  function Int64Bucket(period: Int64, ts: Int64): (r: Result<Int64, BucketError>)
    ensures period <= 0 ==> r == Failure(NonPositivePeriod)
    ensures period > 0 ==> (r.Success? <==> FloorMultiple(period as int, ts as int) >= -0x8000_0000_0000_0000)
    ensures period > 0 && r.Success? ==> r.value as int == FloorMultiple(period as int, ts as int)
    ensures period > 0 && r.Failure? ==> r.error == OutOfRange
  {
    CastInt64(Bucket(period as int, ts as int, -0x8000_0000_0000_0000))
  }

  function CastInt16(b: Result<int, BucketError>): Result<Int16, BucketError>
    requires b.Success? ==> -0x8000 <= b.value < 0x8000
  {
    match b
    case Success(v) => Success(v as Int16)
    case Failure(e) => Failure(e)
  }

  function CastInt32(b: Result<int, BucketError>): Result<Int32, BucketError>
    requires b.Success? ==> -0x8000_0000 <= b.value < 0x8000_0000
  {
    match b
    case Success(v) => Success(v as Int32)
    case Failure(e) => Failure(e)
  }

  function CastInt64(b: Result<int, BucketError>): Result<Int64, BucketError>
    requires b.Success? ==> -0x8000_0000_0000_0000 <= b.value < 0x8000_0000_0000_0000
  {
    match b
    case Success(v) => Success(v as Int64)
    case Failure(e) => Failure(e)
  }

  /** Near the 16-bit minimum an inexact timestamp raises the range error rather than wrapping. */
  lemma Int16NearMinimum()
    ensures Int16Bucket(10, -0x7FFF) == Failure(OutOfRange)
    ensures Int16Bucket(10, -0x7FF8) == Success(-0x7FF8)
    ensures Int16Bucket(10, -7) == Success(-10)
    ensures Int16Bucket(0, 5) == Failure(NonPositivePeriod)
  {
  }
}
