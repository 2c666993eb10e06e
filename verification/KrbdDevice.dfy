/**
 Devices as krbd sees them through udev, and the image spec they stand for.

 The main result is that finding a mapped image by enumerating sysfs with
 escaped glob patterns agrees with comparing specs, which is what the map
 handler does.
 */
module KrbdDevice {
  import opened Glob
  import opened Options

  /** krbd_spec. */
  datatype Spec = Spec(pool: string, nspace: string, image: string, snap: string)

  const SNAP_HEAD_NAME := "-"
  const DEVNODE_PREFIX := "/dev/rbd"

  /** The udev action and subsystem strings krbd compares with. */
  datatype Action = Add | Remove | OtherAction(name: string)
  datatype Subsystem = Rbd | Block | OtherSubsystem(name: string)

  /** One udev device; the sysfs attributes may be missing. */
  datatype Device = Device(
    action: Action, subsystem: Subsystem, sysname: string, devnode: string,
    pool: Option<string>, poolNs: Option<string>, image: Option<string>, currentSnap: Option<string>,
    majnum: string, minnum: string, devnum: nat)

  /** The constructor of krbd_spec: an empty snapshot name means the image head. */
  function MakeSpec(pool: string, nspace: string, image: string, snap: string): Spec {
    Spec(pool, nspace, image, if snap == "" then SNAP_HEAD_NAME else snap)
  }

  /** spec_from_dev. */
  function SpecFromDev(d: Device): Option<Spec> {
    if d.pool.None? || d.image.None? || d.currentSnap.None? then None
    else
      Some(MakeSpec(d.pool.value, if d.poolNs.Some? then d.poolNs.value else "", d.image.value, d.currentSnap.value))
  }

  /** get_devnode. */
  function Devnode(d: Device): string {
    DEVNODE_PREFIX + d.sysname
  }

  /** udev_enumerate_add_match_sysattr with an escaped value. */
  predicate AttrMatches(attr: Option<string>, value: string) {
    attr.Some? && Match(EscapeGlob(value), attr.value)
  }

  /** The filters of __enumerate_devices on an "rbd" device. */
  predicate PassesFilters(d: Device, spec: Spec, matchNspace: bool) {
    && d.subsystem.Rbd?
    && AttrMatches(d.pool, spec.pool)
    && (if matchNspace then AttrMatches(d.poolNs, spec.nspace) else d.poolNs.None?)
    && AttrMatches(d.image, spec.image)
    && AttrMatches(d.currentSnap, spec.snap)
  }

  /** enumerate_devices: a second scan for kernels without namespaces when the first one is empty. */
  function EnumerateDevices(devs: set<Device>, spec: Spec): set<Device> {
    var first := set d | d in devs && PassesFilters(d, spec, true);
    if first == {} && spec.nspace == "" then
      set d | d in devs && PassesFilters(d, spec, false)
    else
      first
  }

  predicate BackslashFree(spec: Spec) {
    '\\' !in spec.pool && '\\' !in spec.nspace && '\\' !in spec.image && '\\' !in spec.snap
  }

  lemma AttrMatchesIff(attr: Option<string>, value: string)
    requires '\\' !in value
    ensures AttrMatches(attr, value) <==> attr == Some(value)
  {
    if attr.Some? {
      EscapedMatchesOnlyItself(value, attr.value);
    }
  }

  lemma FiltersIff(d: Device, spec: Spec, matchNspace: bool)
    requires BackslashFree(spec)
    ensures PassesFilters(d, spec, matchNspace) <==>
              && d.subsystem.Rbd? && d.pool == Some(spec.pool)
              && d.poolNs == (if matchNspace then Some(spec.nspace) else None)
              && d.image == Some(spec.image) && d.currentSnap == Some(spec.snap)
  {
    AttrMatchesIff(d.pool, spec.pool);
    AttrMatchesIff(d.poolNs, spec.nspace);
    AttrMatchesIff(d.image, spec.image);
    AttrMatchesIff(d.currentSnap, spec.snap);
  }

  /** The rbd devices whose attributes are those of the spec, with this namespace attribute. */
  function WithAttributes(devs: set<Device>, spec: Spec, poolNs: Option<string>): set<Device> {
    set d | && d in devs && d.subsystem == Rbd && d.poolNs == poolNs
            && d.pool == Some(spec.pool) && d.image == Some(spec.image) && d.currentSnap == Some(spec.snap)
  }

  /**
   On any set of devices the enumeration finds those with all attributes of the
   spec; those without a namespace attribute only for an empty namespace, and
   only when there are none with it.
   */
  lemma EnumerationFindsAttributes(devs: set<Device>, spec: Spec)
    requires BackslashFree(spec)
    ensures EnumerateDevices(devs, spec) ==
            var named := WithAttributes(devs, spec, Some(spec.nspace));
            if named == {} && spec.nspace == "" then WithAttributes(devs, spec, None) else named
  {
    forall d | d in devs
      ensures PassesFilters(d, spec, true) <==> d in WithAttributes(devs, spec, Some(spec.nspace))
      ensures PassesFilters(d, spec, false) <==> d in WithAttributes(devs, spec, None)
    {
      FiltersIff(d, spec, true);
      FiltersIff(d, spec, false);
    }
    assert (set d | d in devs && PassesFilters(d, spec, true)) == WithAttributes(devs, spec, Some(spec.nspace));
    assert (set d | d in devs && PassesFilters(d, spec, false)) == WithAttributes(devs, spec, None);
  }

  /**
   On one kernel, where either every rbd device or none has the pool_ns
   attribute and the head's snapshot name is written out, enumeration by
   escaped patterns finds exactly the rbd devices whose spec equals the one
   asked for.
   */
  lemma EnumerationFindsTheSpec(devs: set<Device>, spec: Spec)
    requires BackslashFree(spec) && spec.snap != ""
    requires || (forall d :: d in devs && d.subsystem.Rbd? ==> d.poolNs.Some?)
             || (forall d :: d in devs && d.subsystem.Rbd? ==> d.poolNs.None?)
    requires forall d :: d in devs && d.subsystem.Rbd? ==> d.currentSnap != Some("")
    ensures EnumerateDevices(devs, spec) ==
            set d | d in devs && d.subsystem.Rbd? && SpecFromDev(d) == Some(spec)
  {
    forall d | d in devs
      ensures PassesFilters(d, spec, true) <==>
              d.subsystem.Rbd? && SpecFromDev(d) == Some(spec) && d.poolNs.Some?
      ensures spec.nspace == "" ==>
              (PassesFilters(d, spec, false) <==>
               d.subsystem.Rbd? && SpecFromDev(d) == Some(spec) && d.poolNs.None?)
    {
      FiltersIff(d, spec, true);
      FiltersIff(d, spec, false);
    }
    var found := set d | d in devs && d.subsystem.Rbd? && SpecFromDev(d) == Some(spec);
    var first := set d | d in devs && PassesFilters(d, spec, true);
    if forall d :: d in devs && d.subsystem.Rbd? ==> d.poolNs.Some? {
      assert first == found;
      assert (set d | d in devs && PassesFilters(d, spec, false)) == {};
    } else {
      assert first == {};
      if spec.nspace == "" {
        assert (set d | d in devs && PassesFilters(d, spec, false)) == found;
      } else {
        assert found == {};
      }
    }
  }
}
