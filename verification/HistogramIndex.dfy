/**
 The mixed-radix index of the N-dimensional performance histogram: bucket
 tuples and positions in the linear array of counters are in bijection, for any
 number of axes, and visiting the histogram axis by axis walks the array from
 front to back.
 */
module HistogramIndex {
  import opened Options

  /** How many counters there are for these bucket counts. */
  function RawSize(buckets: seq<nat>): nat {
    if buckets == [] then 1 else buckets[0] * RawSize(buckets[1..])
  }

  predicate Positive(buckets: seq<nat>) {
    forall i :: 0 <= i < |buckets| ==> buckets[i] > 0
  }

  /** One bucket number per axis, each in range. */
  predicate InRange(buckets: seq<nat>, t: seq<nat>) {
    |t| == |buckets| && forall i :: 0 <= i < |t| ==> t[i] < buckets[i]
  }

  /** get_raw_index_internal, with the buckets already evaluated. */
  function RawIndexFrom(buckets: seq<nat>, t: seq<nat>, startIndex: nat): nat
    requires |t| == |buckets|
    decreases |t|
  {
    if t == [] then startIndex
    else RawIndexFrom(buckets[1..], t[1..], buckets[0] * startIndex + t[0])
  }

  function RawIndex(buckets: seq<nat>, t: seq<nat>): nat
    requires |t| == |buckets|
  {
    RawIndexFrom(buckets, t, 0)
  }

  /** The tuple at a position: the inverse of RawIndex. */
  function TupleAt(buckets: seq<nat>, k: nat): (t: seq<nat>)
    requires Positive(buckets)
    ensures |t| == |buckets|
  {
    if buckets == [] then []
    else
      SizePositive(buckets[1..]);
      var r := RawSize(buckets[1..]);
      [k / r] + TupleAt(buckets[1..], k % r)
  }

  lemma {:induction false} SizePositive(buckets: seq<nat>)
    requires Positive(buckets)
    ensures RawSize(buckets) > 0
  {
    if buckets != [] {
      SizePositive(buckets[1..]);
    }
  }

  lemma MulLe(a: nat, b: nat, r: nat)
    requires a <= b
    ensures a * r <= b * r
  {
    assert b * r == a * r + (b - a) * r;
  }

  lemma DigitFits(digit: nat, base: nat, low: nat, weight: nat)
    requires digit < base && low < weight
    ensures digit * weight + low < base * weight
  {
    MulLe(digit + 1, base, weight);
  }

  lemma QuotientUnique(m: nat, q: nat, r: nat, q': nat, r': nat)
    requires q * m + r == q' * m + r' && r < m && r' < m
    ensures q == q' && r == r'
  {
    if q < q' {
      MulLe(q + 1, q', m);
    } else if q' < q {
      MulLe(q' + 1, q, m);
    }
  }

  lemma DivModSum(k: nat, m: nat)
    requires m > 0
    ensures k == (k / m) * m + k % m && k % m < m
  {
  }

  lemma DivModUnique(q: nat, m: nat, r: nat)
    requires r < m
    ensures (q * m + r) / m == q && (q * m + r) % m == r
  {
    var x := q * m + r;
    QuotientUnique(m, q, r, x / m, x % m);
  }

  lemma Regroup(b: nat, start: nat, digit: nat, r: nat)
    ensures (b * start + digit) * r == start * (b * r) + digit * r
  {
    assert (b * start) * r == start * (b * r);
  }

  /** The start index weighs as much as everything below it. */
  lemma {:induction false} IndexIsLinear(buckets: seq<nat>, t: seq<nat>, start: nat)
    requires |t| == |buckets|
    ensures RawIndexFrom(buckets, t, start) == start * RawSize(buckets) + RawIndex(buckets, t)
    decreases |t|
  {
    if t != [] {
      var b, r := buckets[0], RawSize(buckets[1..]);
      IndexIsLinear(buckets[1..], t[1..], b * start + t[0]);
      IndexIsLinear(buckets[1..], t[1..], t[0]);
      Regroup(b, start, t[0], r);
    }
  }

  lemma IndexHead(buckets: seq<nat>, t: seq<nat>)
    requires |t| == |buckets| && t != []
    ensures RawIndex(buckets, t) == t[0] * RawSize(buckets[1..]) + RawIndex(buckets[1..], t[1..])
  {
    IndexIsLinear(buckets[1..], t[1..], t[0]);
  }

  lemma {:induction false} IndexInRange(buckets: seq<nat>, t: seq<nat>)
    requires InRange(buckets, t)
    ensures RawIndex(buckets, t) < RawSize(buckets)
    decreases |t|
  {
    if t != [] {
      IndexHead(buckets, t);
      IndexInRange(buckets[1..], t[1..]);
      DigitFits(t[0], buckets[0], RawIndex(buckets[1..], t[1..]), RawSize(buckets[1..]));
    }
  }

  /** Every tuple is found again from its index. */
  lemma {:induction false} TupleOfIndex(buckets: seq<nat>, t: seq<nat>)
    requires InRange(buckets, t)
    ensures Positive(buckets) && TupleAt(buckets, RawIndex(buckets, t)) == t
    decreases |t|
  {
    assert Positive(buckets);
    if t != [] {
      IndexHead(buckets, t);
      IndexInRange(buckets[1..], t[1..]);
      DivModUnique(t[0], RawSize(buckets[1..]), RawIndex(buckets[1..], t[1..]));
      TupleOfIndex(buckets[1..], t[1..]);
      assert t == [t[0]] + t[1..];
    }
  }

  /** Every position below the size is the index of an in-range tuple. */
  lemma {:induction false} IndexOfTuple(buckets: seq<nat>, k: nat)
    requires Positive(buckets) && k < RawSize(buckets)
    ensures InRange(buckets, TupleAt(buckets, k))
    ensures RawIndex(buckets, TupleAt(buckets, k)) == k
    decreases |buckets|
  {
    if buckets != [] {
      SizePositive(buckets[1..]);
      var r := RawSize(buckets[1..]);
      var t := TupleAt(buckets, k);
      IndexOfTuple(buckets[1..], k % r);
      assert t[1..] == TupleAt(buckets[1..], k % r);
      IndexHead(buckets, t);
      DivModSum(k, r);
      if k / r >= buckets[0] {
        MulLe(buckets[0], k / r, r);
      }
    }
  }

  /** The start index only grows on its way down, so it never exceeds the index it ends as. */
  lemma {:induction false} StartNeverFalls(buckets: seq<nat>, t: seq<nat>, start: nat)
    requires |t| == |buckets| && Positive(buckets)
    ensures start <= RawIndexFrom(buckets, t, start)
    decreases |t|
  {
    if t != [] {
      MulLe(1, buckets[0], start);
      StartNeverFalls(buckets[1..], t[1..], buckets[0] * start + t[0]);
    }
  }

  lemma SizeStep(ret: nat, b: nat, r: nat)
    ensures ret * (b * r) == (ret * b) * r
    ensures b >= 1 ==> ret <= ret * b
  {
    if b >= 1 {
      MulLe(1, b, ret);
    }
  }

  /** get_raw_size. `peak` is the largest number on the way: it overflows exactly when the result does. */
  method GetRawSize(buckets: seq<nat>) returns (ret: nat, ghost peak: nat)
    ensures ret == RawSize(buckets)
    ensures Positive(buckets) ==> peak == RawSize(buckets)
  {
    ret, peak := 1, 1;
    for i := 0 to |buckets|
      invariant ret * RawSize(buckets[i..]) == RawSize(buckets)
      invariant Positive(buckets) ==> peak == ret
    {
      assert buckets[i..][1..] == buckets[i + 1..];
      SizeStep(ret, buckets[i], RawSize(buckets[i + 1..]));
      ret := ret * buckets[i];
      peak := Max(peak, ret);
    }
  }

  // ----------------------------------------------------------- visiting

  /** One call made by visit_values; a value is given by its position or, once read, by the counter there. */
  datatype Call = Enter(level: nat) | Value(value: nat) | Leave(level: nat)

  /** The calls made for one position at one level. */
  function Calls(buckets: seq<nat>, level: nat, start: nat): seq<Call>
    requires level <= |buckets|
    decreases |buckets| - level, 0, 0
  {
    if level == |buckets| then [Value(start)]
    else [Enter(level)] + Row(buckets, level, start, buckets[level]) + [Leave(level)]
  }

  /** The calls made for the first n positions under one. */
  function Row(buckets: seq<nat>, level: nat, start: nat, n: nat): seq<Call>
    requires level < |buckets|
    decreases |buckets| - level - 1, 1, n
  {
    if n == 0 then []
    else Row(buckets, level, start, n - 1) + Calls(buckets, level + 1, start * buckets[level] + n - 1)
  }

  function Values(calls: seq<Call>): seq<nat> {
    if calls == [] then []
    else (if calls[0].Value? then [calls[0].value] else []) + Values(calls[1..])
  }

  lemma ConcatAssociates(a: seq<nat>, b: seq<nat>, c: seq<nat>)
    ensures a + (b + c) == (a + b) + c
  {
  }

  lemma {:induction false} ValuesConcat(a: seq<Call>, b: seq<Call>)
    ensures Values(a + b) == Values(a) + Values(b)
    decreases |a|
  {
    if a == [] {
      assert a + b == b;
    } else {
      assert (a + b)[1..] == a[1..] + b;
      ValuesConcat(a[1..], b);
      ConcatAssociates(if a[0].Value? then [a[0].value] else [], Values(a[1..]), Values(b));
    }
  }

  lemma ValuesOfOne(c: Call)
    ensures Values([c]) == if c.Value? then [c.value] else []
  {
    assert [c][1..] == [];
  }

  /** A cluster of calls between entering and leaving shows the same values. */
  lemma ValuesInside(level: nat, row: seq<Call>)
    ensures Values([Enter(level)] + row + [Leave(level)]) == Values(row)
  {
    ValuesConcat([Enter(level)] + row, [Leave(level)]);
    ValuesConcat([Enter(level)], row);
    ValuesOfOne(Enter(level));
    ValuesOfOne(Leave(level));
  }

  /** The k positions from n on. */
  function Range(n: nat, k: nat): (r: seq<nat>)
    ensures |r| == k && forall i :: 0 <= i < k ==> r[i] == n + i
  {
    seq(k, i requires 0 <= i < k => n + i)
  }

  lemma RangeJoin(n: nat, j: nat, k: nat)
    ensures Range(n, j) + Range(n + j, k) == Range(n, j + k)
  {
  }

  /** Where the n-th child of a position starts, and what n children together weigh. */
  lemma ChildOffset(from: nat, n: nat, r: nat)
    requires n > 0
    ensures (from + n - 1) * r == from * r + (n - 1) * r
    ensures (n - 1) * r + r == n * r
  {
  }

  /** onValue is called on the counters of a position's part of the array, once each, from front to back. */
  lemma {:induction false} CallsVisitInOrder(buckets: seq<nat>, level: nat, start: nat)
    requires level <= |buckets|
    ensures Values(Calls(buckets, level, start)) ==
            Range(start * RawSize(buckets[level..]), RawSize(buckets[level..]))
    decreases |buckets| - level, 0, 0
  {
    if level == |buckets| {
      assert RawSize(buckets[level..]) == 1;
      ValuesOfOne(Value(start));
    } else {
      RowVisitsInOrder(buckets, level, start, buckets[level]);
      ValuesInside(level, Row(buckets, level, start, buckets[level]));
      LevelSize(buckets, level, start);
    }
  }

  lemma {:induction false} RowVisitsInOrder(buckets: seq<nat>, level: nat, start: nat, n: nat)
    requires level < |buckets|
    ensures Values(Row(buckets, level, start, n)) ==
            Range(start * buckets[level] * RawSize(buckets[level + 1..]), n * RawSize(buckets[level + 1..]))
    decreases |buckets| - level - 1, 1, n
  {
    if n > 0 {
      var from, r := start * buckets[level], RawSize(buckets[level + 1..]);
      RowVisitsInOrder(buckets, level, start, n - 1);
      CallsVisitInOrder(buckets, level + 1, from + n - 1);
      ValuesConcat(Row(buckets, level, start, n - 1), Calls(buckets, level + 1, from + n - 1));
      RowStretch(from, n, r);
    }
  }

  lemma RowStretch(from: nat, n: nat, r: nat)
    requires n > 0
    ensures Range(from * r, (n - 1) * r) + Range((from + n - 1) * r, r) == Range(from * r, n * r)
  {
    ChildOffset(from, n, r);
    RangeJoin(from * r, (n - 1) * r, r);
  }

  /** A position weighs as much as its children together. */
  lemma LevelSize(buckets: seq<nat>, level: nat, start: nat)
    requires level < |buckets|
    ensures RawSize(buckets[level..]) == buckets[level] * RawSize(buckets[level + 1..])
    ensures start * RawSize(buckets[level..]) == start * buckets[level] * RawSize(buckets[level + 1..])
  {
    assert buckets[level..][1..] == buckets[level + 1..];
    ProductAssociates(start, buckets[level], RawSize(buckets[level + 1..]));
  }

  lemma ProductAssociates(a: nat, b: nat, c: nat)
    ensures a * (b * c) == a * b * c
  {
  }

  // -------------------------------------------------- reading the counters

  function At(raw: seq<nat>, i: nat): nat {
    if i < |raw| then raw[i] else 0
  }

  /** The calls with the counters at their positions. */
  function Read(raw: seq<nat>, calls: seq<Call>): (r: seq<Call>)
    ensures |r| == |calls|
  {
    seq(|calls|, i requires 0 <= i < |calls| =>
      if calls[i].Value? then Value(At(raw, calls[i].value)) else calls[i])
  }

  lemma ReadConcat(raw: seq<nat>, a: seq<Call>, b: seq<Call>)
    ensures Read(raw, a + b) == Read(raw, a) + Read(raw, b)
  {
  }

  lemma {:induction false} ValuesRead(raw: seq<nat>, calls: seq<Call>)
    ensures |Values(Read(raw, calls))| == |Values(calls)|
    ensures forall k :: 0 <= k < |Values(calls)| ==> Values(Read(raw, calls))[k] == At(raw, Values(calls)[k])
    decreases |calls|
  {
    if calls != [] {
      ValuesRead(raw, calls[1..]);
      assert Read(raw, calls)[1..] == Read(raw, calls[1..]);
    }
  }

  /** The whole visit: every counter once, in order; so the k-th value visited belongs to the k-th tuple. */
  lemma VisitIsWholeArray(buckets: seq<nat>, raw: seq<nat>)
    requires |raw| == RawSize(buckets)
    ensures Values(Read(raw, Calls(buckets, 0, 0))) == raw
  {
    assert buckets[0..] == buckets;
    CallsVisitInOrder(buckets, 0, 0);
    ValuesRead(raw, Calls(buckets, 0, 0));
  }

  /** Following the calls from a depth: levels are entered and left in step, values come only at full depth. */
  function Depth(calls: seq<Call>, depth: nat, dim: nat): Option<nat>
    decreases |calls|
  {
    if calls == [] then Some(depth)
    else match calls[0]
      case Enter(level) => if level == depth then Depth(calls[1..], depth + 1, dim) else None
      case Leave(level) => if depth == level + 1 then Depth(calls[1..], level, dim) else None
      case Value(_) => if depth == dim then Depth(calls[1..], depth, dim) else None
  }

  lemma {:induction false} DepthConcat(a: seq<Call>, b: seq<Call>, depth: nat, dim: nat)
    ensures Depth(a + b, depth, dim) ==
            if Depth(a, depth, dim).Some? then Depth(b, Depth(a, depth, dim).value, dim) else None
    decreases |a|
  {
    if a == [] {
      assert a + b == b;
    } else {
      assert (a + b)[1..] == a[1..] + b;
      match a[0]
      case Enter(level) => if level == depth { DepthConcat(a[1..], b, depth + 1, dim); }
      case Leave(level) => if depth == level + 1 { DepthConcat(a[1..], b, level, dim); }
      case Value(_) => if depth == dim { DepthConcat(a[1..], b, depth, dim); }
    }
  }

  lemma DepthOfOne(c: Call, depth: nat, dim: nat)
    ensures Depth([c], depth, dim) ==
            match c
            case Enter(level) => if level == depth then Some(depth + 1) else None
            case Leave(level) => if depth == level + 1 then Some(level) else None
            case Value(_) => if depth == dim then Some(depth) else None
  {
    assert [c][1..] == [];
  }

  /** onDimensionEnter and onDimensionLeave are balanced at every position. */
  lemma {:induction false} CallsAreBalanced(buckets: seq<nat>, level: nat, start: nat)
    requires level <= |buckets|
    ensures Depth(Calls(buckets, level, start), level, |buckets|) == Some(level)
    decreases |buckets| - level, 0, 0
  {
    if level == |buckets| {
      DepthOfOne(Value(start), level, |buckets|);
    } else {
      var row := Row(buckets, level, start, buckets[level]);
      RowIsBalanced(buckets, level, start, buckets[level]);
      DepthOfOne(Enter(level), level, |buckets|);
      DepthOfOne(Leave(level), level + 1, |buckets|);
      DepthConcat([Enter(level)], row, level, |buckets|);
      DepthConcat([Enter(level)] + row, [Leave(level)], level, |buckets|);
    }
  }

  lemma {:induction false} RowIsBalanced(buckets: seq<nat>, level: nat, start: nat, n: nat)
    requires level < |buckets|
    ensures Depth(Row(buckets, level, start, n), level + 1, |buckets|) == Some(level + 1)
    decreases |buckets| - level - 1, 1, n
  {
    if n > 0 {
      var child := start * buckets[level] + n - 1;
      RowIsBalanced(buckets, level, start, n - 1);
      CallsAreBalanced(buckets, level + 1, child);
      DepthConcat(Row(buckets, level, start, n - 1), Calls(buckets, level + 1, child), level + 1, |buckets|);
    }
  }

  /** Reading the counters changes no level. */
  lemma {:induction false} DepthRead(raw: seq<nat>, calls: seq<Call>, depth: nat, dim: nat)
    ensures Depth(Read(raw, calls), depth, dim) == Depth(calls, depth, dim)
    decreases |calls|
  {
    if calls != [] {
      assert Read(raw, calls)[1..] == Read(raw, calls[1..]);
      match calls[0]
      case Enter(level) => DepthRead(raw, calls[1..], depth + 1, dim);
      case Leave(level) => DepthRead(raw, calls[1..], level, dim);
      case Value(_) => DepthRead(raw, calls[1..], depth, dim);
    }
  }

  ghost function Max(a: nat, b: nat): nat {
    if a > b then a else b
  }

  lemma Weigh(i: nat, r: nat)
    requires r >= 1
    ensures i <= i * r <= (i + 1) * r && i + 1 <= (i + 1) * r
  {
    assert i * r == i + i * (r - 1);
    assert (i + 1) * r == i * r + r;
  }

  lemma PeakStep(index: nat, r: nat, peak: nat, p: nat)
    requires r >= 1 && (peak == index || peak == index * r)
    requires p == (index + 1) * r || (p == index && r == 1)
    ensures Max(Max(peak, p), index + 1) == (index + 1) * r
  {
    Weigh(index, r);
  }

  /** A child lies within the part of the array its parent stands for. */
  lemma ChildFits(start: nat, b: nat, i: nat, r: nat, index: nat, limit: nat)
    requires i < b && index == start * b + i && (start + 1) * (b * r) <= limit
    ensures (index + 1) * r <= limit
  {
    assert (start + 1) * (b * r) == (start * b + b) * r;
    MulLe(index + 1, start * b + b, r);
  }

  /** The calls for one more position. */
  lemma RowStep(buckets: seq<nat>, raw: seq<nat>, level: nat, start: nat, i: nat, index: nat)
    requires level < |buckets| && index == start * buckets[level] + i
    ensures Read(raw, Row(buckets, level, start, i + 1)) ==
            Read(raw, Row(buckets, level, start, i)) + Read(raw, Calls(buckets, level + 1, index))
  {
    assert start * buckets[level] + (i + 1) - 1 == index;
    ReadConcat(raw, Row(buckets, level, start, i), Calls(buckets, level + 1, index));
  }

  /**
   visit_values. `peak` is the largest number startIndex holds anywhere in the
   recursion; from the root it is the raw size, so a 32-bit startIndex never
   overflows exactly when the raw size is at most 2^31 - 1.
   */
  method VisitValues(buckets: seq<nat>, raw: seq<nat>, level: nat, startIndex: nat)
    returns (calls: seq<Call>, ghost peak: nat)
    requires Positive(buckets) && level <= |buckets|
    requires (startIndex + 1) * RawSize(buckets[level..]) <= |raw|
    ensures calls == Read(raw, Calls(buckets, level, startIndex))
    ensures peak == if level == |buckets| then startIndex else (startIndex + 1) * RawSize(buckets[level..])
    decreases |buckets| - level
  {
    if level == |buckets| {
      return [Value(raw[startIndex])], startIndex;
    }
    LevelSize(buckets, level, startIndex);
    calls, peak := VisitRow(buckets, raw, level, startIndex);
    ghost var row := Row(buckets, level, startIndex, buckets[level]);
    ReadConcat(raw, [Enter(level)], row);
    ReadConcat(raw, [Enter(level)] + row, [Leave(level)]);
    assert Read(raw, [Enter(level)]) == [Enter(level)] && Read(raw, [Leave(level)]) == [Leave(level)];
    calls := [Enter(level)] + calls + [Leave(level)];
  }

  /** The loop of visit_values over the buckets of one axis. */
  method VisitRow(buckets: seq<nat>, raw: seq<nat>, level: nat, startIndex: nat)
    returns (calls: seq<Call>, ghost peak: nat)
    requires Positive(buckets) && level < |buckets|
    requires (startIndex + 1) * (buckets[level] * RawSize(buckets[level + 1..])) <= |raw|
    ensures calls == Read(raw, Row(buckets, level, startIndex, buckets[level]))
    ensures peak == (startIndex + 1) * (buckets[level] * RawSize(buckets[level + 1..]))
    decreases |buckets| - level, 0
  {
    var index := startIndex * buckets[level];
    ghost var base, r := index, RawSize(buckets[level + 1..]);
    SizePositive(buckets[level + 1..]);
    calls, peak := [], index;
    for i := 0 to buckets[level]
      invariant index == base + i
      invariant calls == Read(raw, Row(buckets, level, startIndex, i))
      invariant peak == if i == 0 then index else index * r
    {
      ChildFits(startIndex, buckets[level], i, r, index, |raw|);
      var below: seq<Call>;
      ghost var p: nat;
      below, p := VisitValues(buckets, raw, level + 1, index);
      RowStep(buckets, raw, level, startIndex, i, index);
      PeakStep(index, r, peak, p);
      calls := calls + below;
      index := index + 1;
      peak := Max(Max(peak, p), index);
    }
    PeakAtEnd(startIndex, buckets[level], r);
  }

  lemma PeakAtEnd(start: nat, b: nat, r: nat)
    ensures (start * b + b) * r == (start + 1) * (b * r)
  {
  }
}
