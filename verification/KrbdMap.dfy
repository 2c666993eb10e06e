/**
 UdevMapHandler: pairing the "rbd" event of an image with the "block" event of
 its device, in whichever order they come.
 */
module KrbdMap {
  import opened KrbdDevice
  import opened Options

  predicate IsBus(spec: Spec, d: Device) {
    d.action.Add? && d.subsystem.Rbd? && SpecFromDev(d) == Some(spec)
  }

  predicate IsBlock(d: Device) {
    d.action.Add? && d.subsystem.Block?
  }

  /** The first event of the image's own device. */
  function FirstBus(spec: Spec, events: seq<Device>): Option<Device> {
    if events == [] then None
    else if IsBus(spec, events[0]) then Some(events[0])
    else FirstBus(spec, events[1..])
  }

  /** The first block event for a device node. */
  function FirstBlock(node: string, events: seq<Device>): Option<Device> {
    if events == [] then None
    else if IsBlock(events[0]) && events[0].devnode == node then Some(events[0])
    else FirstBlock(node, events[1..])
  }

  lemma {:induction false} FirstBlockIff(node: string, events: seq<Device>)
    ensures FirstBlock(node, events).Some? <==> exists d :: d in events && IsBlock(d) && d.devnode == node
    decreases |events|
  {
    if events != [] {
      FirstBlockIff(node, events[1..]);
      assert forall d :: d in events <==> d == events[0] || d in events[1..];
    }
  }

  /** Both the image's device and the block device of its node have shown up. */
  predicate Complete(spec: Spec, events: seq<Device>) {
    var bus := FirstBus(spec, events);
    bus.Some? && FirstBlock(Devnode(bus.value), events).Some?
  }

  lemma {:induction false} FirstBusAppend(spec: Spec, a: seq<Device>, d: Device)
    ensures FirstBus(spec, a + [d]) ==
            if FirstBus(spec, a).Some? then FirstBus(spec, a)
            else if IsBus(spec, d) then Some(d) else None
    decreases |a|
  {
    if a == [] {
      assert [d][1..] == [];
    } else {
      assert (a + [d])[1..] == a[1..] + [d];
      FirstBusAppend(spec, a[1..], d);
    }
  }

  lemma {:induction false} FirstBlockConcat(node: string, a: seq<Device>, b: seq<Device>)
    ensures FirstBlock(node, a + b) == if FirstBlock(node, a).Some? then FirstBlock(node, a) else FirstBlock(node, b)
    decreases |a|
  {
    if a == [] {
      assert a + b == b;
    } else {
      assert (a + b)[1..] == a[1..] + b;
      FirstBlockConcat(node, a[1..], b);
    }
  }

  lemma FirstBlockAppend(node: string, a: seq<Device>, d: Device)
    ensures FirstBlock(node, a + [d]) ==
            if FirstBlock(node, a).Some? then FirstBlock(node, a)
            else if IsBlock(d) && d.devnode == node then Some(d) else None
  {
    FirstBlockConcat(node, a, [d]);
    assert [d][1..] == [];
  }

  /** Once complete, always complete. */
  lemma CompleteGrows(spec: Spec, a: seq<Device>, d: Device)
    ensures Complete(spec, a) ==> Complete(spec, a + [d])
  {
    FirstBusAppend(spec, a, d);
    if Complete(spec, a) {
      FirstBlockAppend(Devnode(FirstBus(spec, a).value), a, d);
    }
  }

  /**
   Order independence: two event sequences with the same events, and the same
   first device of the image, are either both complete or both not.
   */
  lemma CompleteIgnoresOrder(spec: Spec, a: seq<Device>, b: seq<Device>)
    requires multiset(a) == multiset(b) && FirstBus(spec, a) == FirstBus(spec, b)
    ensures Complete(spec, a) == Complete(spec, b)
  {
    if FirstBus(spec, a).Some? {
      var node := Devnode(FirstBus(spec, a).value);
      FirstBlockIff(node, a);
      FirstBlockIff(node, b);
      assert forall d :: d in a <==> d in multiset(a);
      assert forall d :: d in b <==> d in multiset(b);
    }
  }

  /** A block event that may belong to an rbd device. */
  predicate IsCandidate(d: Device) {
    IsBlock(d) && DEVNODE_PREFIX <= d.devnode
  }

  /** The block events the handler keeps while it does not know its device yet. */
  function Candidates(events: seq<Device>): (r: seq<Device>)
    ensures forall d :: d in r ==> IsBlock(d)
  {
    if events == [] then []
    else
      var d := events[|events| - 1];
      Candidates(events[..|events| - 1]) +
      if IsCandidate(d) then [d] else []
  }

  /** The /dev/rbd filter never drops a block event that a device's node could match. */
  lemma {:induction false} CandidatesSuffice(node: string, events: seq<Device>)
    requires DEVNODE_PREFIX <= node
    ensures FirstBlock(node, Candidates(events)) == FirstBlock(node, events)
    decreases |events|
  {
    if events != [] {
      var before, d := events[..|events| - 1], events[|events| - 1];
      CandidatesSuffice(node, before);
      assert before + [d] == events;
      FirstBlockAppend(node, before, d);
      FirstBlockAppend(node, Candidates(before), d);
      assert Candidates(before) + [] == Candidates(before);
    }
  }

  lemma CandidatesAppend(events: seq<Device>, d: Device)
    ensures Candidates(events + [d]) == if IsCandidate(d) then Candidates(events) + [d] else Candidates(events)
  {
    assert (events + [d])[..|events + [d]| - 1] == events;
  }

  /** Once the device is known, it stays, and only the newest event can be the block event it still lacks. */
  lemma WhenKnown(spec: Spec, seen: seq<Device>, bus: Device, d: Device)
    requires FirstBus(spec, seen) == Some(bus) && !Complete(spec, seen)
    ensures FirstBus(spec, seen + [d]) == Some(bus)
    ensures FirstBlock(Devnode(bus), seen + [d]) == FirstBlock(Devnode(bus), if IsCandidate(d) then [d] else [])
  {
    FirstBusAppend(spec, seen, d);
    FirstBlockAppend(Devnode(bus), seen, d);
    FirstBlockAppend(Devnode(bus), [], d);
    assert [] + [d] == [d];
  }

  /** While it is not known, the newest event is either the device itself or at most one more candidate. */
  lemma WhenUnknown(spec: Spec, seen: seq<Device>, d: Device)
    requires FirstBus(spec, seen).None?
    ensures IsBus(spec, d) ==> FirstBus(spec, seen + [d]) == Some(d) &&
                               FirstBlock(Devnode(d), Candidates(seen)) == FirstBlock(Devnode(d), seen + [d])
    ensures !IsBus(spec, d) ==> FirstBus(spec, seen + [d]).None?
    ensures Candidates(seen + [d]) == if IsCandidate(d) then Candidates(seen) + [d] else Candidates(seen)
  {
    FirstBusAppend(spec, seen, d);
    CandidatesAppend(seen, d);
    CandidatesSuffice(Devnode(d), seen + [d]);
  }

  /** The node of the first device of the image, and the numbers of the first block event for it. */
  predicate IsReport(spec: Spec, events: seq<Device>, node: string, majnum: string, minnum: string)
    requires Complete(spec, events)
  {
    var bus := FirstBus(spec, events).value;
    var block := FirstBlock(Devnode(bus), events).value;
    node == Devnode(bus) && majnum == block.majnum && minnum == block.minnum
  }

  lemma {:induction false} FirstBusConcat(spec: Spec, a: seq<Device>, b: seq<Device>)
    requires FirstBus(spec, a).Some?
    ensures FirstBus(spec, a + b) == FirstBus(spec, a)
    decreases |b|
  {
    if b == [] {
      assert a + b == a;
    } else {
      var front, d := b[..|b| - 1], b[|b| - 1];
      FirstBusConcat(spec, a, front);
      assert a + b == a + front + [d];
      FirstBusAppend(spec, a + front, d);
    }
  }

  /** Later events do not change the report. */
  lemma ReportStays(spec: Spec, a: seq<Device>, b: seq<Device>)
    requires Complete(spec, a)
    ensures Complete(spec, a + b)
    ensures forall n, m, k :: IsReport(spec, a, n, m, k) <==> IsReport(spec, a + b, n, m, k)
  {
    FirstBusConcat(spec, a, b);
    FirstBlockConcat(Devnode(FirstBus(spec, a).value), a, b);
  }

  // ------------------------------------- the report in terms of attributes

  /** An added rbd device of the image: its attributes are those asked for; an empty snapshot name is the head. */
  predicate IsOfImage(spec: Spec, d: Device) {
    && d.action == Add && d.subsystem == Rbd
    && d.pool == Some(spec.pool) && d.image == Some(spec.image)
    && (d.poolNs == Some(spec.nspace) || (d.poolNs == None && spec.nspace == ""))
    && d.currentSnap.Some? && (if d.currentSnap.value == "" then "-" else d.currentSnap.value) == spec.snap
  }

  /** An added block device with the node. */
  predicate HasNode(node: string, d: Device) {
    d.action == Add && d.subsystem == Block && d.devnode == node
  }

  /** Event k is the first device of the image, and event j the first block device of its node. */
  ghost predicate IsPair(spec: Spec, events: seq<Device>, k: nat, j: nat) {
    && k < |events| && IsOfImage(spec, events[k])
    && (forall i :: 0 <= i < k ==> !IsOfImage(spec, events[i]))
    && j < |events| && HasNode("/dev/rbd" + events[k].sysname, events[j])
    && (forall i :: 0 <= i < j ==> !HasNode("/dev/rbd" + events[k].sysname, events[i]))
  }

  /** What is reported is the node of the image's device, with the numbers of its block device. */
  ghost predicate ReportsPair(spec: Spec, events: seq<Device>, node: string, majnum: string, minnum: string) {
    exists k: nat, j: nat ::
      && IsPair(spec, events, k, j)
      && node == "/dev/rbd" + events[k].sysname && majnum == events[j].majnum && minnum == events[j].minnum
  }

  lemma {:induction false} FirstBusAt(spec: Spec, events: seq<Device>) returns (k: nat)
    ensures k <= |events| && forall i :: 0 <= i < k ==> !IsOfImage(spec, events[i])
    ensures FirstBus(spec, events).None? <==> k == |events|
    ensures k < |events| ==> IsOfImage(spec, events[k]) && FirstBus(spec, events) == Some(events[k])
    decreases |events|
  {
    if events == [] {
      k := 0;
    } else {
      assert IsBus(spec, events[0]) <==> IsOfImage(spec, events[0]);
      if IsOfImage(spec, events[0]) {
        k := 0;
      } else {
        k := FirstBusAt(spec, events[1..]);
        k := k + 1;
      }
    }
  }

  lemma {:induction false} FirstBlockAt(node: string, events: seq<Device>) returns (j: nat)
    ensures j <= |events| && forall i :: 0 <= i < j ==> !HasNode(node, events[i])
    ensures FirstBlock(node, events).None? <==> j == |events|
    ensures j < |events| ==> HasNode(node, events[j]) && FirstBlock(node, events) == Some(events[j])
    decreases |events|
  {
    if events == [] {
      j := 0;
    } else if HasNode(node, events[0]) {
      j := 0;
    } else {
      j := FirstBlockAt(node, events[1..]);
      j := j + 1;
    }
  }

  /**
   The events are complete exactly when they hold the first device of the image
   and a block device of its node; the report is then about those two.
   */
  lemma CompleteIsPair(spec: Spec, events: seq<Device>)
    ensures Complete(spec, events) <==> exists k: nat, j: nat :: IsPair(spec, events, k, j)
    ensures forall node, majnum, minnum :: Complete(spec, events) && IsReport(spec, events, node, majnum, minnum) ==>
              ReportsPair(spec, events, node, majnum, minnum)
  {
    var k := FirstBusAt(spec, events);
    if k < |events| {
      var j := FirstBlockAt("/dev/rbd" + events[k].sysname, events);
      if j < |events| {
        assert IsPair(spec, events, k, j);
      }
      forall k': nat, j': nat | IsPair(spec, events, k', j') ensures k' == k && j' == j {
      }
    }
  }

  class UdevMapHandler {
    const spec: Spec
    var busDev: Option<Device>
    var blockDevs: seq<Device>
    var devnode: string
    var pdevnode: string
    var majnum: string
    var minnum: string
    ghost var seen: seq<Device>  // every event handled so far

    ghost predicate Valid()
      reads this
    {
      && busDev == FirstBus(spec, seen)
      && (busDev.None? ==> blockDevs == Candidates(seen))
      && (busDev.Some? ==> devnode == Devnode(busDev.value))
      && (busDev.Some? && !Complete(spec, seen) ==> blockDevs == [])
      && forall d :: d in blockDevs ==> IsBlock(d)
    }

    /** The handler has written out the image's node and the numbers of its first block event. */
    ghost predicate Reported()
      reads this
    {
      Complete(spec, seen) && IsReport(spec, seen, pdevnode, majnum, minnum)
    }

    constructor (spec: Spec)
      ensures Valid() && this.spec == spec && seen == []
    {
      this.spec := spec;
      busDev, blockDevs, devnode, seen := None, [], "", [];
      pdevnode, majnum, minnum := "", "", "";
    }

    /** The search through the gathered block events. */
    method FindBlock() returns (block: Option<Device>)
      requires forall d :: d in blockDevs ==> IsBlock(d)
      ensures block == FirstBlock(devnode, blockDevs)
    {
      for i := 0 to |blockDevs|
        invariant FirstBlock(devnode, blockDevs[..i]).None?
      {
        assert blockDevs[..i + 1] == blockDevs[..i] + [blockDevs[i]];
        FirstBlockAppend(devnode, blockDevs[..i], blockDevs[i]);
        if blockDevs[i].devnode == devnode {
          assert blockDevs == blockDevs[..i + 1] + blockDevs[i + 1..];
          FirstBlockConcat(devnode, blockDevs[..i + 1], blockDevs[i + 1..]);
          return Some(blockDevs[i]);
        }
      }
      assert blockDevs[..|blockDevs|] == blockDevs;
      return None;
    }

    /** The first half of the call operator: an event is either the device waited for, or kept, or dropped. */
    method Gather(dev: Device)
      requires Valid() && !Complete(spec, seen)
      modifies `busDev, `blockDevs, `devnode
      ensures busDev == FirstBus(spec, seen + [dev])
      ensures busDev.None? ==> blockDevs == Candidates(seen + [dev])
      ensures busDev.Some? ==> devnode == Devnode(busDev.value)
      ensures busDev.Some? ==> FirstBlock(devnode, blockDevs) == FirstBlock(devnode, seen + [dev])
      ensures forall d :: d in blockDevs ==> IsBlock(d)
      ensures !dev.action.Add? ==> busDev == old(busDev) && blockDevs == old(blockDevs)
      ensures busDev.Some? && old(busDev.None?) ==> busDev == Some(dev) && IsOfImage(spec, dev)
    {
      if busDev.Some? {
        WhenKnown(spec, seen, busDev.value, dev);
      } else {
        WhenUnknown(spec, seen, dev);
      }
      if !dev.action.Add? {
        return;
      }
      if dev.subsystem.Rbd? {
        if busDev.None? {
          if SpecFromDev(dev) == Some(spec) {
            busDev := Some(dev);
            devnode := Devnode(dev);
          }
        }
      } else if dev.subsystem.Block? {
        if DEVNODE_PREFIX <= dev.devnode {
          blockDevs := blockDevs + [dev];
        }
      }
    }

    /**
     The call operator. It answers true exactly at the first event that
     completes the pair, and reports the image's node with the numbers of the
     first block event for it. It is not called again after that.
     */
    method Handle(dev: Device) returns (done: bool)
      requires Valid() && !Complete(spec, seen)
      modifies this
      ensures Valid() && seen == old(seen) + [dev]
      ensures done <==> Complete(spec, seen)
      ensures done ==> Reported() && ReportsPair(spec, seen, pdevnode, majnum, minnum)
      ensures !done ==> forall k: nat, j: nat :: !IsPair(spec, seen, k, j)
      ensures !done ==> pdevnode == old(pdevnode) && majnum == old(majnum) && minnum == old(minnum)
    {
      Gather(dev);
      seen := seen + [dev];
      CompleteIsPair(spec, seen);
      if !dev.action.Add? {
        return false;
      }
      if busDev.Some? && blockDevs != [] {
        var block := FindBlock();
        if block.Some? {
          pdevnode, majnum, minnum := devnode, block.value.majnum, block.value.minnum;
          return true;
        }
        blockDevs := [];
      }
      return false;
    }
  }
}
