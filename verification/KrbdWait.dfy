/**
 wait_for_mapping: one result from the sysfs writer and one stream of udev
 events, arriving in any interleaving, decide a map or unmap.
 */
module KrbdWait {
  import opened KrbdDevice
  import opened KrbdMap
  import opened Options

  /** What udev_monitor_receive_device yields; running dry (EAGAIN, EINTR) ends the batch it is in. */
  datatype Received = Event(device: Device) | Failed(errno: nat)

  /** One return of poll(): whether the sysfs result is readable, and what the udev monitor holds. */
  datatype Poll = Poll(sysfs: bool, batch: seq<Received>)

  datatype Outcome = Returned(r: int, mapped: bool) | Waiting

  const INT_MAX: int := 0x7fff_ffff

  /** Every udev message of the schedule, in order. */
  function Stream(polls: seq<Poll>): seq<Received> {
    if polls == [] then [] else Stream(polls[..|polls| - 1]) + polls[|polls| - 1].batch
  }

  predicate SysfsArrives(polls: seq<Poll>) {
    exists k :: 0 <= k < |polls| && polls[k].sysfs
  }

  /**
   The first conclusion of the stream: 0 at the first event the handler answers
   true to, the error if receiving fails first. A handler is its answer as a
   function of all the events it has been given.
   */
  function Conclusion(answer: seq<Device> -> bool, history: seq<Device>, stream: seq<Received>): Option<int>
    decreases |stream|
  {
    if stream == [] then None
    else match stream[0]
      case Failed(errno) => Some(-(errno as int))
      case Event(d) =>
        if answer(history + [d]) then Some(0) else Conclusion(answer, history + [d], stream[1..])
  }

  /** What a schedule must lead to, whatever the order in which the two sources came. */
  function Verdict(sysfsResult: int, answer: seq<Device> -> bool, polls: seq<Poll>): Outcome {
    if !SysfsArrives(polls) then Waiting
    else if sysfsResult < 0 then Returned(sysfsResult, false)
    else match Conclusion(answer, [], Stream(polls))
      case None => Waiting
      case Some(r) => Returned(r, true)
  }

  function Devices(stream: seq<Received>): seq<Device> {
    if stream == [] then []
    else
      var last := stream[|stream| - 1];
      Devices(stream[..|stream| - 1]) + if last.Event? then [last.device] else []
  }

  /** A longer stream has the same conclusion, once there is one; without one, it goes on from the whole history. */
  lemma {:induction false} ConclusionConcat(answer: seq<Device> -> bool, history: seq<Device>,
                                           a: seq<Received>, b: seq<Received>)
    ensures Conclusion(answer, history, a).Some? ==>
              Conclusion(answer, history, a + b) == Conclusion(answer, history, a)
    ensures Conclusion(answer, history, a).None? ==>
              Conclusion(answer, history, a + b) == Conclusion(answer, history + Devices(a), b)
    decreases |a|
  {
    if a == [] {
      assert a + b == b && history + [] == history;
    } else {
      assert (a + b)[1..] == a[1..] + b;
      if a[0].Event? {
        var d := a[0].device;
        ConclusionConcat(answer, history + [d], a[1..], b);
        DevicesHead(a);
        assert history + [d] + Devices(a[1..]) == history + ([d] + Devices(a[1..]));
      }
    }
  }

  lemma {:induction false} DevicesHead(a: seq<Received>)
    requires a != [] && a[0].Event?
    ensures Devices(a) == [a[0].device] + Devices(a[1..])
    decreases |a|
  {
    if |a| == 1 {
      assert a[..0] == [] && a[1..] == [];
    } else {
      var front := a[..|a| - 1];
      DevicesHead(front);
      assert front[1..] == a[1..][..|a[1..]| - 1];
    }
  }

  lemma {:induction false} DevicesConcat(a: seq<Received>, b: seq<Received>)
    ensures Devices(a + b) == Devices(a) + Devices(b)
    decreases |b|
  {
    if b == [] {
      assert a + b == a;
    } else {
      assert (a + b)[..|a + b| - 1] == a + b[..|b| - 1];
      DevicesConcat(a, b[..|b| - 1]);
    }
  }

  lemma {:induction false} StreamConcat(a: seq<Poll>, b: seq<Poll>)
    ensures Stream(a + b) == Stream(a) + Stream(b)
    decreases |b|
  {
    if b == [] {
      assert a + b == a;
    } else {
      assert (a + b)[..|a + b| - 1] == a + b[..|b| - 1];
      StreamConcat(a, b[..|b| - 1]);
    }
  }

  /** Whether the sysfs result has come, with one more poll(). */
  lemma ArrivalStep(polls: seq<Poll>, k: nat)
    requires k < |polls|
    ensures SysfsArrives(polls[..k + 1]) <==> SysfsArrives(polls[..k]) || polls[k].sysfs
    ensures SysfsArrives(polls[..k + 1]) ==> SysfsArrives(polls)
  {
    if SysfsArrives(polls[..k + 1]) {
      var j :| 0 <= j < k + 1 && polls[..k + 1][j].sysfs;
      assert polls[j].sysfs;
      assert j < k ==> polls[..k][j].sysfs;
    }
    if SysfsArrives(polls[..k]) {
      var j :| 0 <= j < k && polls[..k][j].sysfs;
      assert polls[..k + 1][j].sysfs;
    }
    if polls[k].sysfs {
      assert polls[..k + 1][k].sysfs;
    }
  }

  /** What one more poll() adds to the stream. */
  lemma StreamStep(answer: seq<Device> -> bool, polls: seq<Poll>, k: nat)
    requires k < |polls|
    ensures var now, next := Stream(polls[..k]), Stream(polls[..k + 1]);
            && Devices(next) == Devices(now) + Devices(polls[k].batch)
            && Conclusion(answer, [], next) ==
               (if Conclusion(answer, [], now).Some? then Conclusion(answer, [], now)
                else Conclusion(answer, Devices(now), polls[k].batch))
  {
    var now, next := Stream(polls[..k]), Stream(polls[..k + 1]);
    assert polls[..k + 1][..k] == polls[..k];
    assert next == now + polls[k].batch;
    DevicesConcat(now, polls[k].batch);
    ConclusionConcat(answer, [], now, polls[k].batch);
    assert [] + Devices(now) == Devices(now);
  }

  /** An early conclusion stays the conclusion of the whole schedule. */
  lemma EarlyConclusionStays(answer: seq<Device> -> bool, polls: seq<Poll>, k: nat)
    requires k <= |polls| && Conclusion(answer, [], Stream(polls[..k])).Some?
    ensures Conclusion(answer, [], Stream(polls)) == Conclusion(answer, [], Stream(polls[..k]))
  {
    assert polls == polls[..k] + polls[k..];
    StreamConcat(polls[..k], polls[k..]);
    ConclusionConcat(answer, [], Stream(polls[..k]), Stream(polls[k..]));
  }

  /**
   wait_for_mapping over a schedule of poll() returns. The sysfs result is 0 or
   a negative error, as sysfs_write_rbd returns it, so neither assertion of the
   source can fail.
   */
  method WaitForMapping(sysfsResult: int, answer: seq<Device> -> bool, polls: seq<Poll>) returns (out: Outcome)
    requires sysfsResult <= 0
    ensures out == Verdict(sysfsResult, answer, polls)
  {
    var sysfsR, udevR := INT_MAX, INT_MAX;
    var sysfsOpen, udevOpen := true, true;
    var history: seq<Device> := [];
    for k := 0 to |polls|
      invariant sysfsOpen <==> !SysfsArrives(polls[..k])
      invariant sysfsR == if sysfsOpen then INT_MAX else 0
      invariant !sysfsOpen ==> sysfsResult == 0 && udevOpen
      invariant udevOpen <==> Conclusion(answer, [], Stream(polls[..k])).None?
      invariant udevOpen ==> udevR == INT_MAX && history == Devices(Stream(polls[..k]))
      invariant !udevOpen ==> udevR <= 0 && Conclusion(answer, [], Stream(polls[..k])) == Some(udevR)
    {
      ArrivalStep(polls, k);
      StreamStep(answer, polls, k);
      if Conclusion(answer, [], Stream(polls[..k + 1])).Some? {
        EarlyConclusionStays(answer, polls, k + 1);
      }
      if polls[k].sysfs && sysfsOpen {
        sysfsR := sysfsResult;
        if sysfsR < 0 {
          return Returned(sysfsR, false);
        }
        if udevR != INT_MAX {
          assert sysfsR == 0;
          return Returned(udevR, true);
        }
        sysfsOpen := false;
      }
      if udevOpen {
        var r;
        r, history := Drain(answer, history, polls[k].batch);
        if r.Some? {
          udevR := r.value;
          if sysfsR != INT_MAX {
            assert sysfsR == 0;
            return Returned(udevR, true);
          }
          udevOpen := false;
        }
      }
    }
    assert polls[..|polls|] == polls;
    return Waiting;
  }

  /** Message n is a failure, or an event that satisfies the handler. */
  ghost predicate Concludes(answer: seq<Device> -> bool, history: seq<Device>, stream: seq<Received>, n: nat) {
    n < |stream| && (stream[n].Failed? || answer(history + Devices(stream[..n + 1])))
  }

  ghost predicate SomeConcludes(answer: seq<Device> -> bool, history: seq<Device>, stream: seq<Received>) {
    exists n: nat :: Concludes(answer, history, stream, n)
  }

  lemma DevicesOne(stream: seq<Received>)
    requires stream != []
    ensures Devices(stream[..1]) == if stream[0].Event? then [stream[0].device] else []
  {
    assert stream[..1][..0] == [];
  }

  /** The stream has a conclusion exactly when one of its messages brings one. */
  lemma {:induction false} ConclusionIff(answer: seq<Device> -> bool, history: seq<Device>, stream: seq<Received>)
    ensures Conclusion(answer, history, stream).Some? <==> SomeConcludes(answer, history, stream)
    decreases |stream|
  {
    if stream != [] {
      DevicesOne(stream);
      if stream[0].Failed? || answer(history + [stream[0].device]) {
        assert Concludes(answer, history, stream, 0);
      } else {
        var h, rest := history + [stream[0].device], stream[1..];
        ConclusionIff(answer, h, rest);
        forall n: nat | 1 <= n < |stream|
          ensures Concludes(answer, history, stream, n) <==> Concludes(answer, h, rest, n - 1)
        {
          assert stream[..n + 1][1..] == rest[..n];
          DevicesHead(stream[..n + 1]);
          assert history + Devices(stream[..n + 1]) == h + Devices(rest[..n]);
        }
        assert !Concludes(answer, history, stream, 0);
        if n: nat :| Concludes(answer, h, rest, n) {
          assert Concludes(answer, history, stream, n + 1);
        }
      }
    }
  }

  /**
   When the wait returns at all, and with what: with the kernel's error as soon
   as that has come, and otherwise once a message of the stream concludes.
   */
  lemma WaitReturnsIff(sysfsResult: int, answer: seq<Device> -> bool, polls: seq<Poll>)
    ensures Verdict(sysfsResult, answer, polls).Returned? <==>
            && (exists k :: 0 <= k < |polls| && polls[k].sysfs)
            && (sysfsResult < 0 || SomeConcludes(answer, [], Stream(polls)))
    ensures (exists k :: 0 <= k < |polls| && polls[k].sysfs) && sysfsResult < 0 ==>
            Verdict(sysfsResult, answer, polls) == Returned(sysfsResult, false)
    ensures sysfsResult >= 0 && Verdict(sysfsResult, answer, polls).Returned? ==>
            Verdict(sysfsResult, answer, polls).mapped
  {
    ConclusionIff(answer, [], Stream(polls));
  }

  /** The inner loop: receive until the monitor runs dry, fails, or the handler is satisfied. */
  method Drain(answer: seq<Device> -> bool, before: seq<Device>, batch: seq<Received>)
    returns (r: Option<int>, history: seq<Device>)
    ensures r == Conclusion(answer, before, batch)
    ensures r.Some? ==> r.value <= 0
    ensures r.None? ==> history == before + Devices(batch)
  {
    history := before;
    for j := 0 to |batch|
      invariant history == before + Devices(batch[..j])
      invariant Conclusion(answer, before, batch[..j]).None?
    {
      DrainStep(answer, before, batch, j);
      if batch[j].Failed? {
        return Some(-(batch[j].errno as int)), history;
      }
      history := history + [batch[j].device];
      if answer(history) {
        return Some(0), history;
      }
    }
    assert batch[..|batch|] == batch;
    return None, history;
  }

  // ------------------------------------------------------ map and unmap

  /** UdevMapHandler as a function of its history; `UdevMapHandler.Handle` answers exactly this. */
  function MapAnswer(spec: Spec): seq<Device> -> bool {
    (events: seq<Device>) => Complete(spec, events)
  }

  /** UdevUnmapHandler. */
  function UnmapAnswer(devno: nat): seq<Device> -> bool {
    (events: seq<Device>) =>
      events != [] && events[|events| - 1].action.Remove? && events[|events| - 1].devnum == devno
  }

  /** The first n messages are events, and with the earlier ones they satisfy the handler. */
  ghost predicate SatisfiedBy(answer: seq<Device> -> bool, history: seq<Device>, stream: seq<Received>, n: nat) {
    && n <= |stream| && (forall j :: 0 <= j < n ==> stream[j].Event?)
    && answer(history + Devices(stream[..n]))
  }

  ghost predicate Satisfied(answer: seq<Device> -> bool, history: seq<Device>, stream: seq<Received>) {
    exists n: nat :: SatisfiedBy(answer, history, stream, n)
  }

  /** For a handler that stays satisfied, conclusion 0 means it was satisfied before anything failed. */
  lemma {:induction false} ConcludesZeroIff(answer: seq<Device> -> bool, history: seq<Device>, stream: seq<Received>)
    requires forall h, d :: answer(h) ==> answer(h + [d])
    requires forall j :: 0 <= j < |stream| && stream[j].Failed? ==> stream[j].errno > 0
    requires !answer(history)
    ensures Conclusion(answer, history, stream) == Some(0) <==>
            Satisfied(answer, history, stream)
    decreases |stream|
  {
    assert history + [] == history;
    if stream == [] {
      assert forall n: nat :: n <= |stream| ==> stream[..n] == [];
    } else if stream[0].Failed? {
      forall n: nat ensures !SatisfiedBy(answer, history, stream, n) {
        if n == 0 { assert stream[..n] == []; }
      }
    } else {
      var h, rest := history + [stream[0].device], stream[1..];
      forall n: nat | 1 <= n <= |stream|
        ensures SatisfiedBy(answer, history, stream, n) <==> SatisfiedBy(answer, h, rest, n - 1)
      {
        assert stream[..n][1..] == rest[..n - 1];
        DevicesHead(stream[..n]);
        assert history + Devices(stream[..n]) == h + Devices(rest[..n - 1]);
        assert (forall j :: 0 <= j < n - 1 ==> rest[j].Event?) ==>
            forall j :: 1 <= j < n ==> stream[j] == rest[j - 1] && stream[j].Event?;
      }
      assert !SatisfiedBy(answer, history, stream, 0) by { assert stream[..0] == []; }
      if answer(h) {
        assert rest[..0] == [] && h + [] == h;
        assert SatisfiedBy(answer, h, rest, 0);
        assert SatisfiedBy(answer, history, stream, 1);
      } else {
        ConcludesZeroIff(answer, h, rest);
        if n: nat :| SatisfiedBy(answer, h, rest, n) {
          assert SatisfiedBy(answer, history, stream, n + 1);
        }
      }
    }
  }

  /**
   A map succeeds exactly when the kernel accepted it and, before any udev
   failure, both events of the device had come, in either order and however the
   two sources were interleaved.
   */
  lemma MapSucceedsIff(spec: Spec, sysfsResult: int, polls: seq<Poll>)
    requires sysfsResult <= 0
    requires forall j :: 0 <= j < |Stream(polls)| && Stream(polls)[j].Failed? ==> Stream(polls)[j].errno > 0
    ensures Verdict(sysfsResult, MapAnswer(spec), polls) == Returned(0, true) <==>
            && SysfsArrives(polls) && sysfsResult == 0
            && Satisfied(MapAnswer(spec), [], Stream(polls))
  {
    forall h, d | MapAnswer(spec)(h) ensures MapAnswer(spec)(h + [d]) {
      CompleteGrows(spec, h, d);
    }
    ConcludesZeroIff(MapAnswer(spec), [], Stream(polls));
  }

  /** The inner loop with the map handler itself. */
  method DrainMap(handler: UdevMapHandler, batch: seq<Received>) returns (r: Option<int>)
    requires handler.Valid() && !Complete(handler.spec, handler.seen)
    modifies handler
    ensures handler.Valid() && old(handler.seen) <= handler.seen <= old(handler.seen) + Devices(batch)
    ensures r == Conclusion(MapAnswer(handler.spec), old(handler.seen), batch)
    ensures r.Some? ==> r.value <= 0
    ensures r.None? ==> handler.seen == old(handler.seen) + Devices(batch) && !Complete(handler.spec, handler.seen)
    ensures r == Some(0) && PositiveErrnos(batch) ==> handler.Reported()
  {
    ghost var answer, before := MapAnswer(handler.spec), handler.seen;
    for j := 0 to |batch|
      invariant handler.Valid() && !Complete(handler.spec, handler.seen)
      invariant handler.seen == before + Devices(batch[..j])
      invariant Conclusion(answer, before, batch[..j]).None?
    {
      DrainStep(answer, before, batch, j);
      if batch[j].Failed? {
        return Some(-(batch[j].errno as int));
      }
      var done := handler.Handle(batch[j].device);
      if done {
        return Some(0);
      }
    }
    assert batch[..|batch|] == batch;
    return None;
  }

  /** The stream before a poll(), in it and after it. */
  lemma StreamParts(polls: seq<Poll>, k: nat)
    requires k < |polls|
    ensures Stream(polls) == Stream(polls[..k]) + polls[k].batch + Stream(polls[k + 1..])
  {
    assert polls == polls[..k + 1] + polls[k + 1..] && polls[..k + 1][..k] == polls[..k];
    StreamConcat(polls[..k + 1], polls[k + 1..]);
  }

  lemma PartsOfStream(now: seq<Received>, batch: seq<Received>, rest: seq<Received>)
    ensures PositiveErrnos(now + batch + rest) ==> PositiveErrnos(batch)
    ensures Devices(now) + Devices(batch) <= Devices(now + batch + rest)
  {
    DevicesConcat(now, batch);
    DevicesConcat(now + batch, rest);
    assert forall j :: 0 <= j < |batch| ==> batch[j] == (now + batch + rest)[|now| + j];
  }

  /**
   The wait of do_map with the map handler itself. Besides its verdict it
   reports, on success, the node of the first device of the image among all the
   events of the schedule, whatever the interleaving.
   */
  method WaitForMap(spec: Spec, sysfsResult: int, polls: seq<Poll>)
    returns (out: Outcome, node: string, majnum: string, minnum: string)
    requires sysfsResult <= 0 && PositiveErrnos(Stream(polls))
    ensures out == Verdict(sysfsResult, MapAnswer(spec), polls)
    ensures out == Returned(0, true) ==>
      Complete(spec, Devices(Stream(polls))) && IsReport(spec, Devices(Stream(polls)), node, majnum, minnum)
    ensures out == Returned(0, true) ==> ReportsPair(spec, Devices(Stream(polls)), node, majnum, minnum)
  {
    var handler := new UdevMapHandler(spec);
    CompleteIsPair(spec, Devices(Stream(polls)));
    ghost var answer := MapAnswer(spec);
    var sysfsR, udevR := INT_MAX, INT_MAX;
    var sysfsOpen, udevOpen := true, true;
    for k := 0 to |polls|
      invariant fresh(handler) && handler.Valid() && handler.spec == spec
      invariant sysfsOpen <==> !SysfsArrives(polls[..k])
      invariant sysfsR == if sysfsOpen then INT_MAX else 0
      invariant !sysfsOpen ==> sysfsResult == 0 && udevOpen
      invariant udevOpen <==> Conclusion(answer, [], Stream(polls[..k])).None?
      invariant udevOpen ==> udevR == INT_MAX && handler.seen == Devices(Stream(polls[..k]))
      invariant udevOpen ==> !Complete(spec, handler.seen)
      invariant !udevOpen ==> udevR <= 0 && Conclusion(answer, [], Stream(polls[..k])) == Some(udevR)
      invariant !udevOpen && udevR == 0 ==> handler.Reported() && handler.seen <= Devices(Stream(polls))
    {
      ArrivalStep(polls, k);
      StreamStep(answer, polls, k);
      StreamParts(polls, k);
      PartsOfStream(Stream(polls[..k]), polls[k].batch, Stream(polls[k + 1..]));
      if Conclusion(answer, [], Stream(polls[..k + 1])).Some? {
        EarlyConclusionStays(answer, polls, k + 1);
      }
      if polls[k].sysfs && sysfsOpen {
        sysfsR := sysfsResult;
        if sysfsR < 0 {
          return Returned(sysfsR, false), "", "", "";
        }
        if udevR != INT_MAX {
          node, majnum, minnum := Report(handler, polls, udevR);
          return Returned(udevR, true), node, majnum, minnum;
        }
        sysfsOpen := false;
      }
      if udevOpen {
        var r := DrainMap(handler, polls[k].batch);
        if r.Some? {
          udevR := r.value;
          if sysfsR != INT_MAX {
            node, majnum, minnum := Report(handler, polls, udevR);
            return Returned(udevR, true), node, majnum, minnum;
          }
          udevOpen := false;
        }
      }
    }
    assert polls[..|polls|] == polls;
    return Waiting, "", "", "";
  }

  /** What the handler has written out. */
  method Report(handler: UdevMapHandler, ghost polls: seq<Poll>, udevR: int)
    returns (node: string, majnum: string, minnum: string)
    requires udevR == 0 ==> handler.Reported() && handler.seen <= Devices(Stream(polls))
    ensures var all := Devices(Stream(polls));
            udevR == 0 ==> Complete(handler.spec, all) && IsReport(handler.spec, all, node, majnum, minnum)
  {
    node, majnum, minnum := handler.pdevnode, handler.majnum, handler.minnum;
    if udevR == 0 {
      ghost var all := Devices(Stream(polls));
      assert all == handler.seen + all[|handler.seen|..];
      ReportStays(handler.spec, handler.seen, all[|handler.seen|..]);
    }
  }

  /** What one message of a batch does, as long as nothing before it has concluded. */
  lemma DrainStep(answer: seq<Device> -> bool, before: seq<Device>, batch: seq<Received>, j: nat)
    requires j < |batch| && Conclusion(answer, before, batch[..j]).None?
    ensures batch[j].Failed? ==> Conclusion(answer, before, batch) == Some(-(batch[j].errno as int))
    ensures batch[j].Event? ==>
      var now := before + Devices(batch[..j]) + [batch[j].device];
      && now == before + Devices(batch[..j + 1])
      && (answer(now) ==> Conclusion(answer, before, batch) == Some(0))
      && (!answer(now) ==> Conclusion(answer, before, batch[..j + 1]).None?)
    ensures before + Devices(batch[..j]) <= before + Devices(batch[..j + 1]) <= before + Devices(batch)
  {
    assert batch == batch[..j] + batch[j..] && batch[..j + 1] == batch[..j] + [batch[j]];
    assert batch == batch[..j + 1] + batch[j + 1..];
    ConclusionConcat(answer, before, batch[..j], batch[j..]);
    ConclusionConcat(answer, before, batch[..j], [batch[j]]);
    DevicesConcat(batch[..j], [batch[j]]);
    DevicesConcat(batch[..j + 1], batch[j + 1..]);
    assert [batch[j]][1..] == [] && [batch[j]][..0] == [];
    assert before + Devices(batch[..j]) + Devices([batch[j]]) == before + (Devices(batch[..j]) + Devices([batch[j]]));
  }

  predicate PositiveErrnos(stream: seq<Received>) {
    forall j :: 0 <= j < |stream| && stream[j].Failed? ==> stream[j].errno > 0
  }

  /** do_unmap: an error from udev after the kernel removed the device is not an error of the unmap. */
  function UnmapResult(out: Outcome): int
    requires out.Returned?
  {
    if out.r < 0 && out.mapped then 0 else out.r
  }

  lemma {:induction false} ConclusionIsNotPositive(answer: seq<Device> -> bool, history: seq<Device>,
                                                  stream: seq<Received>)
    ensures Conclusion(answer, history, stream).Some? ==> Conclusion(answer, history, stream).value <= 0
    decreases |stream|
  {
    if stream != [] && stream[0].Event? {
      ConclusionIsNotPositive(answer, history + [stream[0].device], stream[1..]);
    }
  }

  /** Message n is the removal of the device, and nothing before it failed. */
  ghost predicate RemovedAt(devno: nat, stream: seq<Received>, n: nat) {
    && n < |stream| && (forall j :: 0 <= j <= n ==> stream[j].Event?)
    && stream[n].device.action == Remove && stream[n].device.devnum == devno
  }

  /** An unmap's udev side ends well exactly when the removal of that very device came before any failure. */
  lemma {:induction false} RemovalConcludes(devno: nat, history: seq<Device>, stream: seq<Received>)
    requires PositiveErrnos(stream)
    ensures Conclusion(UnmapAnswer(devno), history, stream) == Some(0) <==>
            exists n :: RemovedAt(devno, stream, n)
    decreases |stream|
  {
    if stream != [] && stream[0].Event? {
      var d, rest := stream[0].device, stream[1..];
      assert (history + [d])[|history|] == d;
      RemovalConcludes(devno, history + [d], rest);
      if d.action == Remove && d.devnum == devno {
        assert RemovedAt(devno, stream, 0);
      } else {
        forall n: nat | 1 <= n ensures RemovedAt(devno, stream, n) <==> RemovedAt(devno, rest, n - 1) {
          assert (forall j :: 0 <= j < n && j < |rest| ==> rest[j] == stream[j + 1]);
          assert RemovedAt(devno, rest, n - 1) ==>
              forall j :: 1 <= j <= n ==> stream[j] == rest[j - 1] && stream[j].Event?;
        }
        if n: nat :| RemovedAt(devno, rest, n) {
          assert RemovedAt(devno, stream, n + 1);
        }
      }
    }
  }

  /** What an unmap reports is what the kernel said, whatever udev does. */
  lemma UnmapReportsKernelResult(devno: nat, sysfsResult: int, polls: seq<Poll>)
    requires sysfsResult <= 0
    ensures var out := Verdict(sysfsResult, UnmapAnswer(devno), polls);
            out.Returned? ==> UnmapResult(out) == sysfsResult
  {
    ConclusionIsNotPositive(UnmapAnswer(devno), [], Stream(polls));
  }
}
