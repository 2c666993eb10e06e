/**
 Quantization on one axis of the performance histogram: the bucket a value goes
 to, and the inclusive range of values printed for each bucket, agree.

 Integers are unbounded here; the source computes in int64_t. Each method also
 tells, by `fits`, whether every number on its way is one, and its contract says
 exactly when.
 */
module AxisBuckets {

  datatype Scale = Linear | Log2

  /** axis_config_d; the histogram's constructor insists on positive buckets and quantSize. */
  datatype Axis = Axis(scale: Scale, min: int, quantSize: int, buckets: int)

  predicate WellFormed(ac: Axis) {
    ac.quantSize > 0 && ac.buckets > 0
  }

  const INT64_MIN: int := -0x8000_0000_0000_0000
  const INT64_MAX: int := 0x7fff_ffff_ffff_ffff

  predicate IsInt64(n: int) {
    INT64_MIN <= n <= INT64_MAX
  }

  function Pow2(n: nat): nat {
    if n == 0 then 1 else 2 * Pow2(n - 1)
  }

  /** get_quants: how many quanta lie below the end of bucket i. */
  function Quants(i: nat, scale: Scale): nat
    requires i >= 1
  {
    match scale
    case Linear => i
    case Log2 => Pow2(i - 1)
  }

  /** The least value of bucket i, for every bucket but the first. */
  function LowerBound(ac: Axis, i: nat): int
    requires i >= 1
  {
    if i == 1 then ac.min else ac.min + Quants(i - 1, ac.scale) * ac.quantSize
  }

  /** The value is at or above the bucket's bound, if it has one, and below the next bucket's. */
  predicate Holds(ac: Axis, i: int, value: int) {
    && 0 <= i < ac.buckets
    && (i == 0 || LowerBound(ac, i) <= value)
    && (i == ac.buckets - 1 || value < LowerBound(ac, i + 1))
  }

  lemma {:induction false} QuantsIncrease(i: nat, j: nat, scale: Scale)
    requires 1 <= i < j
    ensures 1 <= Quants(i, scale) < Quants(j, scale)
    decreases j
  {
    if scale.Log2? {
      Pow2Positive(i - 1);
      if i + 1 < j {
        QuantsIncrease(i, j - 1, scale);
      }
    }
  }

  lemma {:induction false} Pow2Positive(n: nat)
    ensures Pow2(n) >= 1
  {
    if n > 0 { Pow2Positive(n - 1); }
  }

  lemma BoundsIncrease(ac: Axis, i: nat, j: nat)
    requires WellFormed(ac) && 1 <= i < j
    ensures LowerBound(ac, i) < LowerBound(ac, j)
  {
    if i == 1 {
      if j == 2 { Pow2Positive(0); } else { QuantsIncrease(1, j - 1, ac.scale); }
      MulLess(0, Quants(j - 1, ac.scale), ac.quantSize);
    } else {
      QuantsIncrease(i - 1, j - 1, ac.scale);
      MulLess(Quants(i - 1, ac.scale), Quants(j - 1, ac.scale), ac.quantSize);
    }
  }

  lemma MulLess(a: nat, b: nat, m: int)
    requires a < b && m > 0
    ensures a * m < b * m
  {
    assert b * m == a * m + (b - a) * m;
  }

  /** A value belongs to one bucket only. */
  lemma HoldsUnique(ac: Axis, i: int, j: int, value: int)
    requires WellFormed(ac) && Holds(ac, i, value) && Holds(ac, j, value)
    ensures i == j
  {
    if i < j {
      if i + 1 < j { BoundsIncrease(ac, i + 1, j); }
    } else if j < i {
      if j + 1 < i { BoundsIncrease(ac, j + 1, i); }
    }
  }

  /** How a quotient by the quantum compares with a number of quanta. */
  lemma QuotientBelow(x: int, q: int, n: nat)
    requires x >= 0 && q > 0
    ensures x / q < n <==> x < n * q
  {
    var d := x / q;
    assert x == d * q + x % q;
    if d < n {
      MulAtMost(d + 1, n, q);
    } else {
      MulAtMost(n, d, q);
    }
  }

  lemma MulAtMost(a: int, b: int, m: int)
    requires a <= b && m > 0
    ensures a * m <= b * m
  {
    assert b * m == a * m + (b - a) * m;
  }

  /** Comparing quanta is comparing with a bucket's bound. */
  lemma BelowBound(ac: Axis, value: int, i: nat)
    requires WellFormed(ac) && value >= ac.min && i >= 1
    ensures (value - ac.min) / ac.quantSize < Quants(i, ac.scale) <==> value < LowerBound(ac, i + 1)
  {
    QuotientBelow(value - ac.min, ac.quantSize, Quants(i, ac.scale));
  }

  lemma QuotientNonNegative(x: int, q: int)
    requires x >= 0 && q > 0
    ensures x / q >= 0
  {
  }

  // ------------------------------------------------- how wide buckets are

  /** The values of bucket i of a linear axis: one quantum each, all below the minimum first, the rest last. */
  predicate InLinearBucket(ac: Axis, i: int, value: int) {
    && 0 <= i < ac.buckets
    && (i > 0 ==> ac.min + (i - 1) * ac.quantSize <= value)
    && (i < ac.buckets - 1 ==> value < ac.min + i * ac.quantSize)
  }

  /** The values of bucket i of a logarithmic axis: bucket 1 takes one quantum, and each end is twice as far off. */
  predicate InLog2Bucket(ac: Axis, i: int, value: int) {
    && 0 <= i < ac.buckets
    && (i == 1 ==> ac.min <= value)
    && (i > 1 ==> ac.min + Pow2(i - 2) * ac.quantSize <= value)
    && (i == 0 && ac.buckets > 1 ==> value < ac.min)
    && (0 < i < ac.buckets - 1 ==> value < ac.min + Pow2(i - 1) * ac.quantSize)
  }

  predicate InBucket(ac: Axis, i: int, value: int) {
    if ac.scale == Linear then InLinearBucket(ac, i, value) else InLog2Bucket(ac, i, value)
  }

  /** The bucket that holds a value is the one these widths give it. */
  lemma HoldsIsInBucket(ac: Axis, i: int, value: int)
    ensures Holds(ac, i, value) <==> InBucket(ac, i, value)
  {
  }

  /** The ranges of a linear axis: consecutive stretches of one quantum between two open ends. */
  predicate LinearRanges(ac: Axis, ranges: seq<(int, int)>) {
    forall i :: 0 < i < |ranges| - 1 ==>
      ranges[i].0 == ac.min + (i - 1) * ac.quantSize && ranges[i].1 == ac.min + i * ac.quantSize - 1
  }

  /** The ranges of a logarithmic axis: one quantum, and then each as wide as all before it together. */
  predicate Log2Ranges(ac: Axis, ranges: seq<(int, int)>) {
    && (|ranges| > 2 ==> ranges[1].0 == ac.min && ranges[1].1 == ac.min + ac.quantSize - 1)
    && forall i :: 1 < i < |ranges| - 1 ==> ranges[i].1 - ranges[i].0 + 1 == ranges[i].0 - ac.min
  }

  /** The ranges follow one another without a gap, from everything below the minimum to everything above. */
  predicate AreAdjacent(ac: Axis, ranges: seq<(int, int)>) {
    && |ranges| > 0 && ranges[0].0 == INT64_MIN && ranges[|ranges| - 1].1 == INT64_MAX
    && (|ranges| > 1 ==> ranges[0].1 == ac.min - 1)
    && forall i :: 0 < i < |ranges| ==> ranges[i].0 == ranges[i - 1].1 + 1
  }

  lemma RangesAreWide(ac: Axis, ranges: seq<(int, int)>)
    requires WellFormed(ac) && |ranges| == ac.buckets && forall i :: 0 <= i < |ranges| ==> ranges[i] == RangeOf(ac, i)
    ensures AreAdjacent(ac, ranges)
    ensures if ac.scale == Linear then LinearRanges(ac, ranges) else Log2Ranges(ac, ranges)
  {
    if ac.scale == Log2 {
      forall i | 1 < i < |ranges| - 1 ensures ranges[i].1 - ranges[i].0 + 1 == ranges[i].0 - ac.min {
        Doubled(Pow2(i - 2), ac.quantSize);
      }
    }
  }

  lemma Doubled(n: int, q: int)
    ensures (2 * n) * q == n * q + n * q
  {
  }

  // ---------------------------------------------------------- the code

  /** The number of quanta from the axis' minimum up to the value. */
  function QuantaTo(ac: Axis, value: int): int
    requires WellFormed(ac)
  {
    (value - ac.min) / ac.quantSize
  }

  /** No number on the way to the bucket of the value leaves int64_t. */
  predicate BucketFits(ac: Axis, value: int)
    requires WellFormed(ac)
  {
    value >= ac.min ==>
      && value - ac.min <= INT64_MAX
      && (ac.scale.Linear? ==> QuantaTo(ac, value) < INT64_MAX)
      && (ac.scale.Log2? ==> ac.buckets <= 64 || QuantaTo(ac, value) < 0x4000_0000_0000_0000)
  }

  /** get_bucket_for_axis: every value goes to the bucket that holds it. */
  method GetBucketForAxis(value: int, ac: Axis) returns (bucket: int, ghost fits: bool)
    requires WellFormed(ac)
    ensures Holds(ac, bucket, value) && InBucket(ac, bucket, value)
    ensures fits <==> BucketFits(ac, value)
  {
    if value < ac.min {
      HoldsIsInBucket(ac, 0, value);
      return 0, true;
    }
    if ac.scale.Linear? {
      bucket, fits := LinearBucket(value, ac);
    } else {
      bucket, fits := Log2Bucket(value, ac);
    }
    HoldsIsInBucket(ac, bucket, value);
  }

  method LinearBucket(value: int, ac: Axis) returns (bucket: int, ghost fits: bool)
    requires WellFormed(ac) && value >= ac.min && ac.scale.Linear?
    ensures Holds(ac, bucket, value) && InLinearBucket(ac, bucket, value)
    ensures fits <==> BucketFits(ac, value)
  {
    var q := (value - ac.min) / ac.quantSize;
    QuotientNonNegative(value - ac.min, ac.quantSize);
    bucket := if q + 1 < ac.buckets - 1 then q + 1 else ac.buckets - 1;
    fits := IsInt64(value - ac.min) && IsInt64(q + 1);
    BelowBound(ac, value, q + 1);
    if bucket >= 2 {
      BelowBound(ac, value, bucket - 1);
    }
    HoldsIsInBucket(ac, bucket, value);
  }

  lemma Pow2Times32(n: nat)
    ensures Pow2(n + 5) == 32 * Pow2(n)
  {
    assert Pow2(n + 1) == 2 * Pow2(n);
    assert Pow2(n + 2) == 2 * Pow2(n + 1);
    assert Pow2(n + 3) == 2 * Pow2(n + 2);
    assert Pow2(n + 4) == 2 * Pow2(n + 3);
    assert Pow2(n + 5) == 2 * Pow2(n + 4);
  }

  lemma Pow2Times1024(n: nat)
    ensures Pow2(n + 10) == 1024 * Pow2(n)
  {
    Pow2Times32(n);
    Pow2Times32(n + 5);
  }

  lemma Pow2Of62()
    ensures Pow2(62) == 0x4000_0000_0000_0000
  {
    assert Pow2(0) == 1;
    assert Pow2(1) == 2;
    assert Pow2(2) == 4;
    Pow2Times1024(2);
    Pow2Times1024(12);
    Pow2Times1024(22);
    Pow2Times1024(32);
    Pow2Times1024(42);
    Pow2Times1024(52);
  }

  /** A power of two is an int64_t up to the 63rd bucket. */
  lemma Pow2Fits(i: nat)
    requires i >= 1
    ensures IsInt64(Quants(i, Log2)) <==> i <= 63
    ensures i >= 63 ==> Quants(i, Log2) >= 0x4000_0000_0000_0000
    ensures i <= 63 ==> Quants(i, Log2) <= 0x4000_0000_0000_0000
  {
    Pow2Of62();
    assert Pow2(63) == 2 * Pow2(62);
    if i < 63 {
      QuantsIncrease(i, 63, Log2);
    } else if i > 64 {
      QuantsIncrease(64, i, Log2);
    }
  }

  /** The search has passed bucket i exactly when there are at least that many quanta. */
  lemma PassedFits(ac: Axis, value: int, i: nat)
    requires WellFormed(ac) && value >= ac.min && ac.scale.Log2? && i >= 1 && LowerBound(ac, i) <= value
    ensures i >= 64 ==> QuantaTo(ac, value) >= 0x4000_0000_0000_0000
  {
    if i >= 64 {
      BelowBound(ac, value, i - 1);
      Pow2Fits(i - 1);
    }
  }

  method Log2Bucket(value: int, ac: Axis) returns (bucket: int, ghost fits: bool)
    requires WellFormed(ac) && value >= ac.min && ac.scale.Log2?
    ensures Holds(ac, bucket, value) && InLog2Bucket(ac, bucket, value)
    ensures fits <==> BucketFits(ac, value)
  {
    var q := (value - ac.min) / ac.quantSize;
    fits := IsInt64(value - ac.min);
    for i := 1 to ac.buckets
      invariant LowerBound(ac, i) <= value
      invariant fits <==> value - ac.min <= INT64_MAX && i <= 64
    {
      BelowBound(ac, value, i);
      Pow2Fits(i);
      PassedFits(ac, value, i);
      fits := fits && IsInt64(Quants(i, Log2));
      if q < Quants(i, Log2) {
        HoldsIsInBucket(ac, i, value);
        return i, fits;
      }
    }
    PassedFits(ac, value, ac.buckets);
    if ac.buckets >= 2 {
      BoundsIncrease(ac, ac.buckets - 1, ac.buckets);
    }
    HoldsIsInBucket(ac, ac.buckets - 1, value);
    return ac.buckets - 1, fits;
  }

  /** The inclusive range of bucket i. */
  function RangeOf(ac: Axis, i: nat): (int, int)
    requires i < ac.buckets
  {
    (if i == 0 then INT64_MIN else LowerBound(ac, i),
     if i == ac.buckets - 1 then INT64_MAX else LowerBound(ac, i + 1) - 1)
  }

  /** The range of a bucket holds exactly the 64-bit values that go to it. */
  lemma RangeHolds(ac: Axis, i: nat, value: int)
    requires WellFormed(ac) && i < ac.buckets && INT64_MIN <= value <= INT64_MAX
    ensures RangeOf(ac, i).0 <= value <= RangeOf(ac, i).1 <==> Holds(ac, i, value)
  {
  }

  /** The bound that ends bucket i, and the product it is made with, are of int64_t. */
  predicate BoundFits(ac: Axis, i: nat)
    requires i >= 1
  {
    Quants(i, ac.scale) * ac.quantSize <= INT64_MAX && ac.min + Quants(i, ac.scale) * ac.quantSize <= INT64_MAX
  }

  /** The bounds of earlier buckets fit when a later one does. */
  lemma BoundFitsStep(ac: Axis, i: nat)
    requires WellFormed(ac) && IsInt64(ac.min) && i >= 1
    ensures i >= 2 && BoundFits(ac, i) ==> BoundFits(ac, i - 1)
    ensures var product := Quants(i, ac.scale) * ac.quantSize;
            BoundFits(ac, i) <==> && IsInt64(Quants(i, ac.scale)) && IsInt64(product)
                                  && IsInt64(ac.min + product) && IsInt64(ac.min + product - 1)
  {
    QuantsIncrease(i, i + 1, ac.scale);
    MulAtMost(1, ac.quantSize, Quants(i, ac.scale));
    if i >= 2 {
      QuantsIncrease(i - 1, i, ac.scale);
      MulAtMost(Quants(i - 1, ac.scale), Quants(i, ac.scale), ac.quantSize);
    }
  }

  /** The loop of get_axis_bucket_ranges, for the buckets between the first and the last. */
  method MiddleRanges(ac: Axis) returns (ret: seq<(int, int)>, min: int, ghost fits: bool)
    requires WellFormed(ac) && IsInt64(ac.min)
    ensures |ret| == ac.buckets
    ensures forall k :: 1 <= k < ac.buckets - 1 ==> ret[k] == RangeOf(ac, k)
    ensures ac.buckets > 1 ==> min == LowerBound(ac, ac.buckets - 1)
    ensures ac.buckets == 1 ==> min == ac.min
    ensures fits <==> ac.buckets > 2 ==> BoundFits(ac, ac.buckets - 2)
  {
    ret := seq(ac.buckets, _ => (0, 0));
    min := ac.min;
    fits := true;
    var i := 1;
    while i < ac.buckets - 1
      invariant 1 <= i && (if ac.buckets > 1 then i <= ac.buckets - 1 else i == 1) && |ret| == ac.buckets
      invariant min == LowerBound(ac, i)
      invariant forall k :: 1 <= k < i && k < ac.buckets ==> ret[k] == RangeOf(ac, k)
      invariant fits <==> i > 1 ==> BoundFits(ac, i - 1)
    {
      BoundFitsStep(ac, i);
      var product := Quants(i, ac.scale) * ac.quantSize;
      var maxExclusive := ac.min + product;
      fits := && fits && IsInt64(Quants(i, ac.scale)) && IsInt64(product)
              && IsInt64(maxExclusive) && IsInt64(maxExclusive - 1);
      ret := ret[i := (min, maxExclusive - 1)];
      min := maxExclusive;
      i := i + 1;
    }
  }

  /** No number on the way to the ranges leaves int64_t. */
  predicate RangesFit(ac: Axis)
    requires WellFormed(ac)
  {
    ac.min > INT64_MIN && (ac.buckets > 2 ==> BoundFits(ac, ac.buckets - 2))
  }

  /** get_axis_bucket_ranges; with one bucket the first and the last element are the same. */
  method GetAxisBucketRanges(ac: Axis) returns (ret: seq<(int, int)>, ghost fits: bool)
    requires WellFormed(ac) && IsInt64(ac.min)
    ensures |ret| == ac.buckets
    ensures forall i :: 0 <= i < |ret| ==> ret[i] == RangeOf(ac, i)
    ensures AreAdjacent(ac, ret)
    ensures if ac.scale == Linear then LinearRanges(ac, ret) else Log2Ranges(ac, ret)
    ensures fits <==> RangesFit(ac)
  {
    var min: int;
    ret, min, fits := MiddleRanges(ac);
    var last := ac.buckets - 1;
    fits := fits && IsInt64(ac.min - 1);
    ret := ret[0 := (ret[0].0, ac.min - 1)];
    ret := ret[last := (min, ret[last].1)];
    ret := ret[0 := (INT64_MIN, ret[0].1)];
    ret := ret[last := (ret[last].0, INT64_MAX)];
    RangesAreWide(ac, ret);
  }

  /**
   For every 64-bit value, the range printed for a bucket contains it exactly
   when that is its bucket, as long as both computations stay in int64_t.
   */
  method BucketsAgreeWithRanges(ac: Axis, value: int) returns (bucket: int, ranges: seq<(int, int)>, ghost fits: bool)
    requires WellFormed(ac) && IsInt64(ac.min) && IsInt64(value)
    ensures |ranges| == ac.buckets && 0 <= bucket < |ranges|
    ensures forall i :: 0 <= i < |ranges| ==> (ranges[i].0 <= value <= ranges[i].1 <==> i == bucket)
    ensures fits <==> BucketFits(ac, value) && RangesFit(ac)
  {
    ghost var f, g: bool;
    bucket, f := GetBucketForAxis(value, ac);
    ranges, g := GetAxisBucketRanges(ac);
    fits := f && g;
    forall i | 0 <= i < |ranges| ensures ranges[i].0 <= value <= ranges[i].1 <==> i == bucket {
      RangeHolds(ac, i, value);
      if Holds(ac, i, value) {
        HoldsUnique(ac, i, bucket, value);
      }
    }
  }
}
