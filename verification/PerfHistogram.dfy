/**
 The counters of the performance histogram against the history of increments:
 each counter is the number of inputs that fell in its tuple of buckets, and
 summing counters over the axes one is not interested in gives the ordinary
 histogram of the remaining one.
 */
module PerfHistogram {
  import opened AxisBuckets
  import opened HistogramIndex
  import opened Options

  const TWO64: nat := 0x1_0000_0000_0000_0000

  // ------------------------------------------------ counting a history

  predicate AllInRange(buckets: seq<nat>, history: seq<seq<nat>>) {
    forall j :: 0 <= j < |history| ==> InRange(buckets, history[j])
  }

  /** How many tuples of the history have index k. */
  function Hits(buckets: seq<nat>, history: seq<seq<nat>>, k: nat): (n: nat)
    requires AllInRange(buckets, history)
    ensures n <= |history|
  {
    if history == [] then 0
    else
      Hits(buckets, history[..|history| - 1], k) +
      if RawIndex(buckets, history[|history| - 1]) == k then 1 else 0
  }

  /** A counter counts one tuple: the hits at its index are that tuple's multiplicity. */
  lemma {:induction false} HitsAreMultiplicity(buckets: seq<nat>, history: seq<seq<nat>>, t: seq<nat>)
    requires AllInRange(buckets, history) && InRange(buckets, t)
    ensures Hits(buckets, history, RawIndex(buckets, t)) == multiset(history)[t]
    decreases |history|
  {
    if history != [] {
      var before, last := history[..|history| - 1], history[|history| - 1];
      HitsAreMultiplicity(buckets, before, t);
      assert history == before + [last];
      TupleOfIndex(buckets, t);
      TupleOfIndex(buckets, last);
    }
  }

  /** The counters below K whose index is selected, added up. */
  function Sum(buckets: seq<nat>, history: seq<seq<nat>>, select: nat -> bool, K: nat): nat
    requires AllInRange(buckets, history)
  {
    if K == 0 then 0
    else Sum(buckets, history, select, K - 1) + if select(K - 1) then Hits(buckets, history, K - 1) else 0
  }

  /** How many inputs of the history have a selected index. */
  function Selected(buckets: seq<nat>, history: seq<seq<nat>>, select: nat -> bool): nat
    requires AllInRange(buckets, history)
  {
    if history == [] then 0
    else
      Selected(buckets, history[..|history| - 1], select) +
      if select(RawIndex(buckets, history[|history| - 1])) then 1 else 0
  }

  lemma {:induction false} SumStep(buckets: seq<nat>, history: seq<seq<nat>>, select: nat -> bool, K: nat)
    requires AllInRange(buckets, history) && history != []
    ensures var before, i := history[..|history| - 1], RawIndex(buckets, history[|history| - 1]);
            Sum(buckets, history, select, K) ==
            Sum(buckets, before, select, K) + if i < K && select(i) then 1 else 0
    decreases K
  {
    if K > 0 {
      SumStep(buckets, history, select, K - 1);
    }
  }

  lemma {:induction false} SumOfNothing(buckets: seq<nat>, select: nat -> bool, K: nat)
    ensures Sum(buckets, [], select, K) == 0
    decreases K
  {
    if K > 0 {
      SumOfNothing(buckets, select, K - 1);
    }
  }

  /** Adding up selected counters over the whole array counts the inputs with a selected index. */
  lemma {:induction false} SumCountsInputs(buckets: seq<nat>, history: seq<seq<nat>>, select: nat -> bool)
    requires AllInRange(buckets, history)
    ensures Sum(buckets, history, select, RawSize(buckets)) == Selected(buckets, history, select)
    decreases |history|
  {
    if history == [] {
      SumOfNothing(buckets, select, RawSize(buckets));
    } else {
      SumCountsInputs(buckets, history[..|history| - 1], select);
      SumStep(buckets, history, select, RawSize(buckets));
      IndexInRange(buckets, history[|history| - 1]);
    }
  }

  /** All counters together count every input once. */
  lemma {:induction false} AllCountersCountAllInputs(buckets: seq<nat>, history: seq<seq<nat>>)
    requires AllInRange(buckets, history)
    ensures Sum(buckets, history, (k: nat) => true, RawSize(buckets)) == |history|
    decreases |history|
  {
    SumCountsInputs(buckets, history, (k: nat) => true);
    EverythingSelected(buckets, history, (k: nat) => true);
  }

  lemma {:induction false} EverythingSelected(buckets: seq<nat>, history: seq<seq<nat>>, select: nat -> bool)
    requires AllInRange(buckets, history) && forall k: nat :: select(k)
    ensures Selected(buckets, history, select) == |history|
    decreases |history|
  {
    if history != [] {
      EverythingSelected(buckets, history[..|history| - 1], select);
    }
  }

  /** The history seen on one axis only. */
  function OnAxis(history: seq<seq<nat>>, axis: nat): (r: seq<seq<nat>>)
    requires forall j :: 0 <= j < |history| ==> axis < |history[j]|
    ensures |r| == |history| && forall j :: 0 <= j < |r| ==> r[j] == [history[j][axis]]
  {
    seq(|history|, j requires 0 <= j < |history| => [history[j][axis]])
  }

  function SameBucket(buckets: seq<nat>, axis: nat, bucket: nat): nat -> bool
    requires Positive(buckets) && axis < |buckets|
  {
    (k: nat) => TupleAt(buckets, k)[axis] == bucket
  }

  lemma OneAxisIndex(b: nat, v: nat)
    ensures RawIndex([b], [v]) == v
  {
    assert RawIndexFrom([b][1..], [v][1..], b * 0 + v) == v;
  }

  lemma {:induction false} SelectedOnAxis(buckets: seq<nat>, history: seq<seq<nat>>, axis: nat, bucket: nat)
    requires Positive(buckets) && AllInRange(buckets, history) && axis < |buckets|
    ensures AllInRange([buckets[axis]], OnAxis(history, axis))
    ensures Selected(buckets, history, SameBucket(buckets, axis, bucket)) ==
            Hits([buckets[axis]], OnAxis(history, axis), bucket)
    decreases |history|
  {
    if history != [] {
      var before, last := history[..|history| - 1], history[|history| - 1];
      SelectedOnAxis(buckets, before, axis, bucket);
      var one := OnAxis(history, axis);
      assert one[..|one| - 1] == OnAxis(before, axis);
      TupleOfIndex(buckets, last);
      OneAxisIndex(buckets[axis], last[axis]);
    }
  }

  /** Summing out all axes but one gives the one-axis histogram of the same inputs. */
  lemma MarginalIsOneAxisHistogram(buckets: seq<nat>, history: seq<seq<nat>>, axis: nat, bucket: nat)
    requires Positive(buckets) && AllInRange(buckets, history) && axis < |buckets|
    ensures AllInRange([buckets[axis]], OnAxis(history, axis))
    ensures Sum(buckets, history, SameBucket(buckets, axis, bucket), RawSize(buckets)) ==
            Hits([buckets[axis]], OnAxis(history, axis), bucket)
  {
    SumCountsInputs(buckets, history, SameBucket(buckets, axis, bucket));
    SelectedOnAxis(buckets, history, axis, bucket);
  }

  /** The selected ones among the first K counters, added up as they are stored. */
  function SumOf(raw: seq<nat>, select: nat -> bool, K: nat): nat
    requires K <= |raw|
  {
    if K == 0 then 0 else SumOf(raw, select, K - 1) + if select(K - 1) then raw[K - 1] else 0
  }

  lemma {:induction false} SumOfHits(raw: seq<nat>, buckets: seq<nat>, history: seq<seq<nat>>,
                                    select: nat -> bool, K: nat)
    requires AllInRange(buckets, history) && K <= |raw|
    requires forall k :: 0 <= k < |raw| ==> raw[k] == Hits(buckets, history, k)
    ensures SumOf(raw, select, K) == Sum(buckets, history, select, K)
    decreases K
  {
    if K > 0 {
      SumOfHits(raw, buckets, history, select, K - 1);
    }
  }

  // ---------------------------------------------------------- the class

  function BucketCounts(axes: seq<Axis>): (r: seq<nat>)
    requires forall i :: 0 <= i < |axes| ==> WellFormed(axes[i])
    ensures |r| == |axes| && Positive(r)
    ensures forall i :: 0 <= i < |r| ==> r[i] == axes[i].buckets
  {
    seq(|axes|, (i: nat) requires i < |axes| && WellFormed(axes[i]) => axes[i].buckets as nat)
  }

  class Histogram {
    const axes: seq<Axis>
    const buckets: seq<nat>
    var rawData: array<nat>
    ghost var history: seq<seq<nat>>  // the bucket tuples counted since the last reset

    ghost predicate Shaped()
      reads this
    {
      && (forall i :: 0 <= i < |axes| ==> WellFormed(axes[i]))
      && buckets == BucketCounts(axes)
      && rawData.Length == RawSize(buckets)
    }

    /** Every 64-bit counter holds the number of its tuple's occurrences in the history. */
    ghost predicate Valid()
      reads this, rawData
    {
      && Shaped() && AllInRange(buckets, history)
      && forall k :: 0 <= k < rawData.Length ==> rawData[k] == Hits(buckets, history, k) % TWO64
    }

    /** The counters come uninitialized from `new`. */
    constructor (axes: seq<Axis>)
      requires forall i :: 0 <= i < |axes| ==> WellFormed(axes[i])
      ensures Shaped() && this.axes == axes && fresh(rawData)
    {
      this.axes := axes;
      this.buckets := BucketCounts(axes);
      var size, _ := GetRawSize(BucketCounts(axes));
      rawData := new nat[size];
      history := [];
    }

    method Reset()
      requires Shaped()
      modifies `history, rawData
      ensures Valid() && history == []
    {
      history := [];
      var i, _ := GetRawSize(buckets);
      while i > 0
        modifies rawData
        invariant 0 <= i <= rawData.Length
        invariant forall k :: i <= k < rawData.Length ==> rawData[k] == 0
      {
        i := i - 1;
        rawData[i] := 0;
      }
    }

    /** The tuple of buckets that hold the values, axis by axis. */
    method BucketsFor(values: seq<int>) returns (t: seq<nat>)
      requires Shaped() && |values| == |axes|
      ensures InRange(buckets, t)
      ensures forall i :: 0 <= i < |axes| ==> Holds(axes[i], t[i], values[i])
    {
      t := [];
      for i := 0 to |axes|
        invariant |t| == i
        invariant forall j :: 0 <= j < i ==> Holds(axes[j], t[j], values[j])
      {
        var b, _ := GetBucketForAxis(values[i], axes[i]);
        t := t + [b];
      }
    }

    method IncBucket(t: seq<nat>)
      requires Valid() && InRange(buckets, t)
      modifies `history, rawData
      ensures Valid() && history == old(history) + [t]
    {
      var index := RawIndex(buckets, t);
      IndexInRange(buckets, t);
      history := history + [t];
      rawData[index] := (rawData[index] + 1) % TWO64;
      assert history[..|history| - 1] == old(history);
      forall k | 0 <= k < rawData.Length ensures rawData[k] == Hits(buckets, history, k) % TWO64 {
        WrapStep(Hits(buckets, old(history), k));
      }
    }

    method Inc(values: seq<int>)
      requires Valid() && |values| == |axes|
      modifies `history, rawData
      ensures Valid() && |history| == |old(history)| + 1 && history[..|old(history)|] == old(history)
      ensures forall i :: 0 <= i < |axes| ==> Holds(axes[i], history[|history| - 1][i], values[i])
    {
      var t := BucketsFor(values);
      IncBucket(t);
    }

    /** Over fewer than 2^64 increments a counter reads as the number of inputs that fell in its tuple. */
    method ReadBucket(t: seq<nat>) returns (value: nat)
      requires Valid() && InRange(buckets, t)
      ensures |history| < TWO64 ==> value == multiset(history)[t]
      ensures value == multiset(history)[t] % TWO64
    {
      IndexInRange(buckets, t);
      HitsAreMultiplicity(buckets, history, t);
      value := rawData[RawIndex(buckets, t)];
    }

    /**
     Over fewer than 2^64 increments the stored counters add up to the number of
     increments, and those of one bucket of one axis to the number of inputs in
     that bucket.
     */
    lemma CountersAddUp(axis: nat, bucket: nat)
      requires Valid() && |history| < TWO64 && axis < |axes|
      ensures SumOf(rawData[..], (k: nat) => true, rawData.Length) == |history|
      ensures AllInRange([buckets[axis]], OnAxis(history, axis))
      ensures SumOf(rawData[..], SameBucket(buckets, axis, bucket), rawData.Length) ==
              Hits([buckets[axis]], OnAxis(history, axis), bucket)
    {
      SumOfHits(rawData[..], buckets, history, (k: nat) => true, rawData.Length);
      AllCountersCountAllInputs(buckets, history);
      SumOfHits(rawData[..], buckets, history, SameBucket(buckets, axis, bucket), rawData.Length);
      MarginalIsOneAxisHistogram(buckets, history, axis, bucket);
    }

    /**
     dump_formatted_values: the k-th value shown is the count of the k-th tuple,
     in balanced sections, and the largest start index on the way is the raw size.
     */
    method DumpFormattedValues() returns (calls: seq<Call>, ghost peak: nat)
      requires Valid() && |axes| > 0
      ensures |Values(calls)| == RawSize(buckets)
      ensures forall k :: 0 <= k < RawSize(buckets) ==>
                InRange(buckets, TupleAt(buckets, k)) &&
                Values(calls)[k] == multiset(history)[TupleAt(buckets, k)] % TWO64
      ensures Depth(calls, 0, |axes|) == Some(0)
      ensures peak == RawSize(buckets)
    {
      var raw := rawData[..];
      VisitIsWholeArray(buckets, raw);
      assert buckets[0..] == buckets;
      calls, peak := VisitValues(buckets, raw, 0, 0);
      CallsAreBalanced(buckets, 0, 0);
      DepthRead(raw, Calls(buckets, 0, 0), 0, |buckets|);
      forall k | 0 <= k < RawSize(buckets)
        ensures InRange(buckets, TupleAt(buckets, k))
        ensures raw[k] == multiset(history)[TupleAt(buckets, k)] % TWO64
      {
        IndexOfTuple(buckets, k);
        HitsAreMultiplicity(buckets, history, TupleAt(buckets, k));
      }
    }
  }

  lemma WrapStep(n: nat)
    ensures (n % TWO64 + 1) % TWO64 == (n + 1) % TWO64
  {
  }
}
