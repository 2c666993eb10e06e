/**
 The bookkeeping of the OSD thrasher: four lists changed in step by random
 actions, the guarded weighted choice of the next action, and the recovery that
 brings every OSD up and in at the end.
 */
module Thrasher {
  import opened Options

  /** in_osds, out_osds, live_osds and dead_osds. */
  datatype Osds = Osds(ins: seq<nat>, outs: seq<nat>, live: seq<nat>, dead: seq<nat>)

  // ------------------------------------------------------------- actions

  /** `list.remove`: the first occurrence goes. */
  function Remove(s: seq<nat>, x: nat): (r: seq<nat>)
    requires x in s
    ensures |r| == |s| - 1
  {
    if s[0] == x then s[1..] else [s[0]] + Remove(s[1..], x)
  }

  lemma {:induction false} RemoveIsMinusOne(s: seq<nat>, x: nat)
    requires x in s
    ensures multiset(Remove(s, x)) == multiset(s) - multiset{x}
    decreases |s|
  {
    assert s == [s[0]] + s[1..];
    if s[0] != x {
      RemoveIsMinusOne(s[1..], x);
    }
  }

  /**
   An action with the OSD it picks; `markOut` is kill_osd's argument. Out of a
   list that does not hold the OSD nothing can be removed: Python raises, and
   the step has no result.
   */
  datatype Action =
    | Kill(osd: nat, markOut: bool)
    | BlackholeKill(osd: nat)
    | Revive(osd: nat)
    | Out(osd: nat)
    | In(osd: nat)

  function DoOut(s: Osds, osd: nat): Option<Osds> {
    if osd in s.ins then Some(s.(ins := Remove(s.ins, osd), outs := s.outs + [osd])) else None
  }

  function DoRevive(s: Osds, osd: nat): Option<Osds> {
    if osd in s.dead then Some(s.(dead := Remove(s.dead, osd), live := s.live + [osd])) else None
  }

  function DoKill(s: Osds, osd: nat): Option<Osds> {
    if osd in s.live then Some(s.(live := Remove(s.live, osd), dead := s.dead + [osd])) else None
  }

  function Step(s: Osds, a: Action): Option<Osds> {
    match a
    case Kill(osd, markOut) =>
      (match DoKill(s, osd)
       case None => None
       case Some(t) => if markOut && osd in t.ins then DoOut(t, osd) else Some(t))
    case BlackholeKill(osd) => DoKill(s, osd)
    case Revive(osd) => DoRevive(s, osd)
    case Out(osd) => DoOut(s, osd)
    case In(osd) =>
      if osd in s.dead then DoRevive(s, osd)
      else if osd in s.outs then Some(s.(outs := Remove(s.outs, osd), ins := s.ins + [osd]))
      else None
  }

  /** Each OSD is on exactly one of live and dead, once, and on exactly one of in and out, once. */
  ghost predicate Partitions(s: Osds, all: set<nat>) {
    && multiset(s.live) + multiset(s.dead) == multiset(all)
    && multiset(s.ins) + multiset(s.outs) == multiset(all)
  }

  lemma MoveKeepsUnion(a: seq<nat>, b: seq<nat>, x: nat)
    requires x in a
    ensures multiset(Remove(a, x)) + multiset(b + [x]) == multiset(a) + multiset(b)
    ensures multiset(b + [x]) + multiset(Remove(a, x)) == multiset(b) + multiset(a)
  {
    RemoveIsMinusOne(a, x);
    assert x in multiset(a);
  }

  lemma DoKillKeepsPartition(s: Osds, osd: nat, all: set<nat>)
    requires Partitions(s, all) && DoKill(s, osd).Some?
    ensures Partitions(DoKill(s, osd).value, all)
  {
    MoveKeepsUnion(s.live, s.dead, osd);
  }

  lemma DoReviveKeepsPartition(s: Osds, osd: nat, all: set<nat>)
    requires Partitions(s, all) && DoRevive(s, osd).Some?
    ensures Partitions(DoRevive(s, osd).value, all)
  {
    MoveKeepsUnion(s.dead, s.live, osd);
  }

  lemma DoOutKeepsPartition(s: Osds, osd: nat, all: set<nat>)
    requires Partitions(s, all) && DoOut(s, osd).Some?
    ensures Partitions(DoOut(s, osd).value, all)
  {
    MoveKeepsUnion(s.ins, s.outs, osd);
  }

  /** One OSD has gone from the first list to the second, and no other has moved. */
  ghost predicate Moved(from: seq<nat>, to: seq<nat>, from': seq<nat>, to': seq<nat>, osd: nat) {
    && osd in from && osd !in from' && osd in to'
    && forall x :: x != osd ==> (x in from' <==> x in from) && (x in to' <==> x in to)
  }

  lemma RemoveMoves(from: seq<nat>, to: seq<nat>, osd: nat, all: set<nat>)
    requires osd in from && multiset(from) + multiset(to) == multiset(all)
    ensures Moved(from, to, Remove(from, osd), to + [osd], osd)
  {
    RemoveIsMinusOne(from, osd);
    var rest := Remove(from, osd);
    assert multiset(from)[osd] <= multiset(all)[osd] <= 1;
    forall x: nat ensures x in rest <==> x in multiset(from) - multiset{osd} {
      assert x in rest <==> x in multiset(rest);
    }
    forall x: nat ensures x in from <==> x in multiset(from) {
    }
  }

  /** Which lists the OSD of an action changes, and that no other OSD changes any. */
  lemma StepMoves(s: Osds, a: Action, all: set<nat>)
    requires Partitions(s, all) && Step(s, a).Some?
    ensures var t := Step(s, a).value;
            match a
            case Kill(osd, markOut) =>
              && Moved(s.live, s.dead, t.live, t.dead, osd)
              && (if markOut && osd in s.ins then Moved(s.ins, s.outs, t.ins, t.outs, osd)
                  else t.ins == s.ins && t.outs == s.outs)
            case BlackholeKill(osd) =>
              Moved(s.live, s.dead, t.live, t.dead, osd) && t.ins == s.ins && t.outs == s.outs
            case Revive(osd) =>
              Moved(s.dead, s.live, t.dead, t.live, osd) && t.ins == s.ins && t.outs == s.outs
            case Out(osd) =>
              Moved(s.ins, s.outs, t.ins, t.outs, osd) && t.live == s.live && t.dead == s.dead
            case In(osd) =>
              if osd in s.dead then Moved(s.dead, s.live, t.dead, t.live, osd) && t.ins == s.ins && t.outs == s.outs
              else Moved(s.outs, s.ins, t.outs, t.ins, osd) && t.live == s.live && t.dead == s.dead
  {
    var osd := a.osd;
    if osd in s.live { RemoveMoves(s.live, s.dead, osd, all); }
    if osd in s.dead { RemoveMoves(s.dead, s.live, osd, all); }
    if osd in s.ins { RemoveMoves(s.ins, s.outs, osd, all); }
    if osd in s.outs { RemoveMoves(s.outs, s.ins, osd, all); }
  }

  /** An action fails exactly when its OSD is not in the list it has to leave. */
  lemma StepFailsIff(s: Osds, a: Action)
    ensures Step(s, a).None? <==>
            match a
            case Kill(osd, _) => osd !in s.live
            case BlackholeKill(osd) => osd !in s.live
            case Revive(osd) => osd !in s.dead
            case Out(osd) => osd !in s.ins
            case In(osd) => osd !in s.dead && osd !in s.outs
  {
  }

  lemma StepKeepsPartition(s: Osds, a: Action, all: set<nat>)
    requires Partitions(s, all) && Step(s, a).Some?
    ensures Partitions(Step(s, a).value, all)
  {
    match a
    case Kill(osd, markOut) =>
      DoKillKeepsPartition(s, osd, all);
      var t := DoKill(s, osd).value;
      if markOut && osd in t.ins {
        DoOutKeepsPartition(t, osd, all);
      }
    case BlackholeKill(osd) => DoKillKeepsPartition(s, osd, all);
    case Revive(osd) => DoReviveKeepsPartition(s, osd, all);
    case Out(osd) => DoOutKeepsPartition(s, osd, all);
    case In(osd) =>
      if osd in s.dead {
        DoReviveKeepsPartition(s, osd, all);
      } else {
        MoveKeepsUnion(s.outs, s.ins, osd);
      }
  }

  /** The state after a run of actions, if none of them raised. */
  function Run(s: Osds, actions: seq<Action>): Option<Osds> {
    if actions == [] then Some(s)
    else match Run(s, actions[..|actions| - 1])
      case None => None
      case Some(t) => Step(t, actions[|actions| - 1])
  }

  /** Every run conserves the OSDs: both pairs of lists stay duplicate-free partitions of the same set. */
  lemma {:induction false} RunKeepsPartition(s: Osds, actions: seq<Action>, all: set<nat>)
    requires Partitions(s, all) && Run(s, actions).Some?
    ensures Partitions(Run(s, actions).value, all)
    decreases |actions|
  {
    if actions != [] {
      var before := actions[..|actions| - 1];
      RunKeepsPartition(s, before, all);
      StepKeepsPartition(Run(s, before).value, actions[|actions| - 1], all);
    }
  }

  // --------------------------------------------------------- the thrasher

  class OSDThrasher {
    var inOsds: seq<nat>
    var outOsds: seq<nat>
    var liveOsds: seq<nat>
    var deadOsds: seq<nat>

    function View(): Osds
      reads this
    {
      Osds(inOsds, outOsds, liveOsds, deadOsds)
    }

    constructor (s: Osds)
      ensures View() == s
    {
      inOsds, outOsds, liveOsds, deadOsds := s.ins, s.outs, s.live, s.dead;
    }

    /** What a step must do here: its result, or nothing at all when Python raises. */
    twostate predicate Steps(a: Action, ok: bool)
      reads this
    {
      match Step(old(View()), a)
      case None => !ok && View() == old(View())
      case Some(t) => ok && View() == t
    }

    method KillOsd(osd: nat, markOut: bool) returns (ok: bool)
      modifies this
      ensures Steps(Kill(osd, markOut), ok)
    {
      if osd !in liveOsds {
        return false;
      }
      liveOsds := Remove(liveOsds, osd);
      deadOsds := deadOsds + [osd];
      ok := true;
      if markOut && osd in inOsds {
        ok := OutOsd(osd);
      }
    }

    method BlackholeKillOsd(osd: nat) returns (ok: bool)
      modifies `liveOsds, `deadOsds
      ensures Steps(BlackholeKill(osd), ok)
    {
      if osd !in liveOsds {
        return false;
      }
      liveOsds := Remove(liveOsds, osd);
      deadOsds := deadOsds + [osd];
      return true;
    }

    method ReviveOsd(osd: nat) returns (ok: bool)
      modifies `liveOsds, `deadOsds
      ensures Steps(Revive(osd), ok)
    {
      if osd !in deadOsds {
        return false;
      }
      deadOsds := Remove(deadOsds, osd);
      liveOsds := liveOsds + [osd];
      return true;
    }

    method OutOsd(osd: nat) returns (ok: bool)
      modifies `inOsds, `outOsds
      ensures Steps(Out(osd), ok)
    {
      if osd !in inOsds {
        return false;
      }
      inOsds := Remove(inOsds, osd);
      outOsds := outOsds + [osd];
      return true;
    }

    method InOsd(osd: nat) returns (ok: bool)
      modifies this
      ensures Steps(In(osd), ok)
    {
      if osd in deadOsds {
        ok := ReviveOsd(osd);
        return;
      }
      if osd !in outOsds {
        return false;
      }
      outOsds := Remove(outOsds, osd);
      inOsds := inOsds + [osd];
      return true;
    }

    /**
     all_up, under every random choice: it ends with every OSD live and in. The
     second loop makes progress because the first left no OSD dead.
     */
    method AllUp(ghost all: set<nat>)
      requires Partitions(View(), all)
      modifies this
      ensures Partitions(View(), all)
      ensures deadOsds == [] && outOsds == []
      ensures multiset(liveOsds) == multiset(all) && multiset(inOsds) == multiset(all)
    {
      while |deadOsds| > 0
        invariant Partitions(View(), all)
        decreases |deadOsds|
      {
        var osd := Choice(deadOsds);
        StepKeepsPartition(View(), Revive(osd), all);
        var ok := ReviveOsd(osd);
        assert ok;
      }
      while |outOsds| > 0
        invariant Partitions(View(), all) && deadOsds == []
        decreases |outOsds|
      {
        var osd := Choice(outOsds);
        StepKeepsPartition(View(), In(osd), all);
        var ok := InOsd(osd);
        assert ok;
      }
    }
  }

  /** `random.choice`: some element of a list that has one. */
  method Choice(s: seq<nat>) returns (x: nat)
    requires |s| > 0
    ensures x in s
  {
    var i: nat :| i < |s|;
    x := s[i];
  }

  // --------------------------------------------------- choosing an action

  /** What choose_action can return. */
  datatype Kind =
    | OutOsd | KillOsd | InOsd | ReviveOsd
    | PrimaryAffinity | Reweight | GrowPool | ShrinkPool | FixPgpNum
    | TestPoolMinSize | TestBackfillFull | ClusterFull | PgUpmap | PgUpmapItems | ForceRecovery
    | PauseShort(key: string) | PauseLong(key: string)

  /** The configuration choose_action reads; chances are fractions. */
  datatype Config = Config(
    minIn: nat, minOut: nat, minLive: nat, minDead: nat, chanceDown: real,
    primaryAffinity: bool, reweight: real, pgnumGrow: real, pgnumShrink: real, pgpnumFix: real,
    testMinSize: real, testBackfillFull: real, clusterFull: real, pgUpmap: real, pgUpmapItems: real,
    forceRecovery: real, pauseShort: real, pauseLong: real)

  predicate NonNegative(c: Config) {
    && c.chanceDown >= 0.0 && c.reweight >= 0.0 && c.pgnumGrow >= 0.0 && c.pgnumShrink >= 0.0 && c.pgpnumFix >= 0.0
    && c.testMinSize >= 0.0 && c.testBackfillFull >= 0.0 && c.clusterFull >= 0.0 && c.pgUpmap >= 0.0
    && c.pgUpmapItems >= 0.0 && c.forceRecovery >= 0.0 && c.pauseShort >= 0.0 && c.pauseLong >= 0.0
  }

  function When(b: bool, k: Kind, w: real): seq<(Kind, real)> {
    if b then [(k, w)] else []
  }

  /** The first part of the list: the actions guarded by the lists' lengths. */
  function Guarded(c: Config, s: Osds): seq<(Kind, real)> {
    When(|s.ins| > c.minIn, OutOsd, 1.0) +
    When(|s.live| > c.minLive && c.chanceDown > 0.0, KillOsd, c.chanceDown) +
    When(|s.outs| > c.minOut, InOsd, 1.7) +
    When(|s.dead| > c.minDead, ReviveOsd, 1.0)
  }

  /** The actions that are always listed. */
  function Steady(c: Config): seq<(Kind, real)> {
    [(Reweight, c.reweight), (GrowPool, c.pgnumGrow), (ShrinkPool, c.pgnumShrink), (FixPgpNum, c.pgpnumFix),
     (TestPoolMinSize, c.testMinSize), (TestBackfillFull, c.testBackfillFull)]
  }

  /** The key of a pause is looked up when it is called, so all have the last one of the list. */
  const PAUSE_KEY := "filestore_inject_stall"

  function Pauses(c: Config): seq<(Kind, real)> {
    [(PauseShort(PAUSE_KEY), c.pauseShort), (PauseLong(PAUSE_KEY), c.pauseLong),
     (PauseShort(PAUSE_KEY), c.pauseShort), (PauseLong(PAUSE_KEY), c.pauseLong)]
  }

  /** The rest of the list. */
  function Unguarded(c: Config): seq<(Kind, real)> {
    When(c.primaryAffinity, PrimaryAffinity, 1.0) + Steady(c) +
    When(c.clusterFull > 0.0, ClusterFull, c.clusterFull) +
    When(c.pgUpmap > 0.0, PgUpmap, c.pgUpmap) +
    When(c.pgUpmapItems > 0.0, PgUpmapItems, c.pgUpmapItems) +
    When(c.forceRecovery > 0.0, ForceRecovery, c.forceRecovery) +
    Pauses(c)
  }

  function Actions(c: Config, s: Osds): seq<(Kind, real)> {
    Guarded(c, s) + Unguarded(c)
  }

  /** The weights of the first k actions, added up. */
  function Cumulative(actions: seq<(Kind, real)>, k: nat): real
    requires k <= |actions|
  {
    if k == 0 then 0.0 else Cumulative(actions, k - 1) + actions[k - 1].1
  }

  predicate WeightsNonNegative(actions: seq<(Kind, real)>) {
    forall i :: 0 <= i < |actions| ==> actions[i].1 >= 0.0
  }

  lemma {:induction false} CumulativeGrows(actions: seq<(Kind, real)>, j: nat, k: nat)
    requires WeightsNonNegative(actions) && j <= k <= |actions|
    ensures Cumulative(actions, j) <= Cumulative(actions, k)
    decreases k
  {
    if j < k {
      CumulativeGrows(actions, j, k - 1);
    }
  }

  /** The interval of cumulative weight that belongs to action k. */
  predicate Owns(actions: seq<(Kind, real)>, k: nat, val: real) {
    k < |actions| && Cumulative(actions, k) <= val < Cumulative(actions, k + 1)
  }

  lemma OwnerIsUnique(actions: seq<(Kind, real)>, j: nat, k: nat, val: real)
    requires WeightsNonNegative(actions) && Owns(actions, j, val) && Owns(actions, k, val)
    ensures j == k
  {
    if j < k {
      CumulativeGrows(actions, j + 1, k);
    } else if k < j {
      CumulativeGrows(actions, k + 1, j);
    }
  }

  /**
   The selecting loop of choose_action: it returns the one action whose interval
   holds the drawn value, so never one of weight zero, and nothing exactly when
   the value is not below the total, which random.uniform may yield.
   */
  method Select(actions: seq<(Kind, real)>, drawn: real) returns (k: Option<nat>)
    requires WeightsNonNegative(actions) && drawn >= 0.0
    ensures k.Some? ==> Owns(actions, k.value, drawn) && actions[k.value].1 > 0.0
    ensures k.Some? ==> forall j :: Owns(actions, j, drawn) ==> j == k.value
    ensures k.None? <==> drawn >= Cumulative(actions, |actions|)
  {
    var val := drawn;
    for i := 0 to |actions|
      invariant val == drawn - Cumulative(actions, i) && val >= 0.0
    {
      if val < actions[i].1 {
        CumulativeGrows(actions, i + 1, |actions|);
        forall j: nat | Owns(actions, j, drawn) ensures j == i {
          OwnerIsUnique(actions, j, i, drawn);
        }
        return Some(i);
      }
      val := val - actions[i].1;
    }
    return None;
  }

  // ------------------------------------------------------ guarded runs

  /** The counts that the guards of choose_action protect. */
  predicate AboveMinimum(c: Config, s: Osds) {
    |s.ins| >= c.minIn && |s.live| >= c.minLive && |s.outs| >= c.minOut
  }

  /** The action belongs to a kind; choose_action passes no argument, so nothing is marked out. */
  predicate IsOfKind(a: Action, k: Kind) {
    match a
    case Kill(_, markOut) => k == KillOsd && !markOut
    case BlackholeKill(_) => false
    case Revive(_) => k == ReviveOsd
    case Out(_) => k == OutOsd
    case In(_) => k == InOsd
  }

  /** The action is of one of the listed kinds; `Step` says whether its OSD is in the right list. */
  predicate IsChosen(c: Config, s: Osds, a: Action) {
    exists i :: 0 <= i < |Actions(c, s)| && IsOfKind(a, Actions(c, s)[i].0)
  }

  lemma GuardsHold(c: Config, s: Osds, i: nat)
    requires i < |Actions(c, s)|
    ensures Actions(c, s)[i].0 == OutOsd ==> |s.ins| > c.minIn
    ensures Actions(c, s)[i].0 == KillOsd ==> |s.live| > c.minLive
    ensures Actions(c, s)[i].0 == InOsd ==> |s.outs| > c.minOut
    ensures Actions(c, s)[i].0 == ReviveOsd ==> |s.dead| > c.minDead
  {
    var a := Actions(c, s)[i];
    OneOfTheParts(Guarded(c, s), Unguarded(c), i);
    if a in Guarded(c, s) {
      GuardedIsGuarded(c, s, a);
    } else {
      RestIsHarmless(c, a);
    }
  }

  /** Each action of the first part stands behind its own guard. */
  lemma GuardedIsGuarded(c: Config, s: Osds, a: (Kind, real))
    requires a in Guarded(c, s)
    ensures || (a.0 == OutOsd && |s.ins| > c.minIn)
            || (a.0 == KillOsd && |s.live| > c.minLive)
            || (a.0 == InOsd && |s.outs| > c.minOut)
            || (a.0 == ReviveOsd && |s.dead| > c.minDead)
  {
  }

  /** None of the other actions touches the lists. */
  lemma RestIsHarmless(c: Config, a: (Kind, real))
    requires a in Unguarded(c)
    ensures a.0 !in {OutOsd, KillOsd, InOsd, ReviveOsd}
  {
  }

  lemma OneOfTheParts(a: seq<(Kind, real)>, b: seq<(Kind, real)>, i: nat)
    requires i < |a + b|
    ensures (a + b)[i] in a || (a + b)[i] in b
  {
    if i < |a| {
      assert (a + b)[i] == a[i];
    } else {
      assert (a + b)[i] == b[i - |a|];
    }
  }

  lemma JoinNonNegative(a: seq<(Kind, real)>, b: seq<(Kind, real)>)
    requires WeightsNonNegative(a) && WeightsNonNegative(b)
    ensures WeightsNonNegative(a + b)
  {
  }

  lemma UnguardedNonNegative(c: Config)
    requires NonNegative(c)
    ensures WeightsNonNegative(Unguarded(c))
  {
    var a := When(c.primaryAffinity, PrimaryAffinity, 1.0) + Steady(c);
    var b := a + When(c.clusterFull > 0.0, ClusterFull, c.clusterFull);
    var d := b + When(c.pgUpmap > 0.0, PgUpmap, c.pgUpmap);
    var e := d + When(c.pgUpmapItems > 0.0, PgUpmapItems, c.pgUpmapItems);
    var f := e + When(c.forceRecovery > 0.0, ForceRecovery, c.forceRecovery);
    JoinNonNegative(When(c.primaryAffinity, PrimaryAffinity, 1.0), Steady(c));
    JoinNonNegative(a, When(c.clusterFull > 0.0, ClusterFull, c.clusterFull));
    JoinNonNegative(b, When(c.pgUpmap > 0.0, PgUpmap, c.pgUpmap));
    JoinNonNegative(d, When(c.pgUpmapItems > 0.0, PgUpmapItems, c.pgUpmapItems));
    JoinNonNegative(e, When(c.forceRecovery > 0.0, ForceRecovery, c.forceRecovery));
    JoinNonNegative(f, Pauses(c));
  }

  lemma ActionsNonNegative(c: Config, s: Osds)
    requires NonNegative(c)
    ensures WeightsNonNegative(Actions(c, s))
  {
    UnguardedNonNegative(c);
    assert WeightsNonNegative(Guarded(c, s));
    JoinNonNegative(Guarded(c, s), Unguarded(c));
  }

  // ---------------------------------------------- which action is chosen

  function Total(actions: seq<(Kind, real)>): real {
    Cumulative(actions, |actions|)
  }

  lemma {:induction false} CumulativePrefix(a: seq<(Kind, real)>, b: seq<(Kind, real)>, k: nat)
    requires k <= |a|
    ensures Cumulative(a + b, k) == Cumulative(a, k)
    decreases k
  {
    if k > 0 {
      CumulativePrefix(a, b, k - 1);
    }
  }

  lemma {:induction false} TotalConcat(a: seq<(Kind, real)>, b: seq<(Kind, real)>)
    ensures Total(a + b) == Total(a) + Total(b)
    decreases |b|
  {
    if b == [] {
      assert a + b == a;
    } else {
      var front, last := b[..|b| - 1], b[|b| - 1];
      TotalConcat(a, front);
      assert a + b == (a + front) + [last] && b == front + [last];
      CumulativePrefix(a + front, [last], |a + front|);
      CumulativePrefix(front, [last], |front|);
    }
  }

  /** An action of the kind owns the draw. */
  ghost predicate OwnedBy(actions: seq<(Kind, real)>, val: real, k: Kind) {
    exists i: nat :: Owns(actions, i, val) && actions[i].0 == k
  }

  lemma OwnedStays(a: seq<(Kind, real)>, b: seq<(Kind, real)>, val: real, k: Kind)
    requires OwnedBy(a, val, k)
    ensures OwnedBy(a + b, val, k)
  {
    var i: nat :| Owns(a, i, val) && a[i].0 == k;
    CumulativePrefix(a, b, i);
    CumulativePrefix(a, b, i + 1);
    assert Owns(a + b, i, val) && (a + b)[i] == a[i];
  }

  /** How much of the draw belongs to each of the four actions: its weight, or nothing behind a closed guard. */
  function OutShare(c: Config, s: Osds): real {
    if |s.ins| > c.minIn then 1.0 else 0.0
  }

  function KillShare(c: Config, s: Osds): real {
    if |s.live| > c.minLive && c.chanceDown > 0.0 then c.chanceDown else 0.0
  }

  function InShare(c: Config, s: Osds): real {
    if |s.outs| > c.minOut then 1.7 else 0.0
  }

  function ReviveShare(c: Config, s: Osds): real {
    if |s.dead| > c.minDead then 1.0 else 0.0
  }

  /** The kind a draw falls on among the four actions that change the lists; none when it is past them. */
  function FallsOn(c: Config, s: Osds, drawn: real): Option<Kind> {
    var out := OutShare(c, s);
    var kill := out + KillShare(c, s);
    var back := kill + InShare(c, s);
    if drawn < out then Some(OutOsd)
    else if drawn < kill then Some(KillOsd)
    else if drawn < back then Some(InOsd)
    else if drawn < back + ReviveShare(c, s) then Some(ReviveOsd)
    else None
  }

  lemma TotalWhen(b: bool, k: Kind, w: real)
    ensures Total(When(b, k, w)) == if b then w else 0.0
  {
    if b {
      assert Cumulative([(k, w)], 1) == Cumulative([(k, w)], 0) + w;
    }
  }

  /** The action behind a list owns what its weight adds to the list's total. */
  lemma OwnsBehind(a: seq<(Kind, real)>, b: bool, k: Kind, w: real, val: real)
    requires Total(a) <= val < Total(a) + if b then w else 0.0
    ensures OwnedBy(a + When(b, k, w), val, k)
  {
    var x := [(k, w)];
    CumulativePrefix(a, x, |a|);
    assert Owns(a + x, |a|, val) && (a + x)[|a|] == (k, w);
  }

  /** The parts of the list in front of each guarded action. */
  lemma GuardedParts(c: Config, s: Osds)
    ensures var a := When(|s.ins| > c.minIn, OutOsd, 1.0);
            var b := a + When(|s.live| > c.minLive && c.chanceDown > 0.0, KillOsd, c.chanceDown);
            var d := b + When(|s.outs| > c.minOut, InOsd, 1.7);
            && Total(a) == OutShare(c, s)
            && Total(b) == OutShare(c, s) + KillShare(c, s)
            && Total(d) == OutShare(c, s) + KillShare(c, s) + InShare(c, s)
            && Total(Guarded(c, s)) == OutShare(c, s) + KillShare(c, s) + InShare(c, s) + ReviveShare(c, s)
  {
    var a := When(|s.ins| > c.minIn, OutOsd, 1.0);
    var a' := When(|s.live| > c.minLive && c.chanceDown > 0.0, KillOsd, c.chanceDown);
    var b := a + a';
    var b' := When(|s.outs| > c.minOut, InOsd, 1.7);
    TotalWhen(|s.ins| > c.minIn, OutOsd, 1.0);
    TotalWhen(|s.live| > c.minLive && c.chanceDown > 0.0, KillOsd, c.chanceDown);
    TotalWhen(|s.outs| > c.minOut, InOsd, 1.7);
    TotalWhen(|s.dead| > c.minDead, ReviveOsd, 1.0);
    TotalConcat(a, a');
    TotalConcat(b, b');
    TotalConcat(b + b', When(|s.dead| > c.minDead, ReviveOsd, 1.0));
  }

  /** The draw is owned by an action of the kind it falls on. */
  lemma FallsOnOwner(c: Config, s: Osds, drawn: real)
    requires drawn >= 0.0 && FallsOn(c, s, drawn).Some?
    ensures OwnedBy(Actions(c, s), drawn, FallsOn(c, s, drawn).value)
  {
    var k := FallsOn(c, s, drawn).value;
    var a := When(|s.ins| > c.minIn, OutOsd, 1.0);
    var b := When(|s.live| > c.minLive && c.chanceDown > 0.0, KillOsd, c.chanceDown);
    var d := When(|s.outs| > c.minOut, InOsd, 1.7);
    var e := When(|s.dead| > c.minDead, ReviveOsd, 1.0);
    GuardedParts(c, s);
    if k == OutOsd {
      OwnsBehind([], |s.ins| > c.minIn, OutOsd, 1.0, drawn);
      assert [] + a == a;
      OwnedStays(a, b, drawn, k);
      OwnedStays(a + b, d, drawn, k);
      OwnedStays(a + b + d, e, drawn, k);
    } else if k == KillOsd {
      OwnsBehind(a, |s.live| > c.minLive && c.chanceDown > 0.0, KillOsd, c.chanceDown, drawn);
      OwnedStays(a + b, d, drawn, k);
      OwnedStays(a + b + d, e, drawn, k);
    } else if k == InOsd {
      OwnsBehind(a + b, |s.outs| > c.minOut, InOsd, 1.7, drawn);
      OwnedStays(a + b + d, e, drawn, k);
    } else {
      OwnsBehind(a + b + d, |s.dead| > c.minDead, ReviveOsd, 1.0, drawn);
    }
    OwnedStays(Guarded(c, s), Unguarded(c), drawn, k);
  }

  /** A draw that an action owns is below the total, and the action selected is that one. */
  lemma OwnerIsSelected(actions: seq<(Kind, real)>, drawn: real, k: Kind, i: Option<nat>)
    requires WeightsNonNegative(actions) && OwnedBy(actions, drawn, k)
    requires i.Some? ==> Owns(actions, i.value, drawn)
    requires i.None? ==> drawn >= Cumulative(actions, |actions|)
    ensures i.Some? && actions[i.value].0 == k
  {
    var j: nat :| Owns(actions, j, drawn) && actions[j].0 == k;
    CumulativeGrows(actions, j + 1, |actions|);
    if i.Some? {
      OwnerIsUnique(actions, i.value, j, drawn);
    }
  }

  /** Past the four actions the draw is owned by one of the others. */
  lemma PastTheFour(c: Config, s: Osds, drawn: real, i: nat)
    requires NonNegative(c) && FallsOn(c, s, drawn).None? && Owns(Actions(c, s), i, drawn)
    ensures Actions(c, s)[i].0 !in {OutOsd, KillOsd, InOsd, ReviveOsd}
  {
    var g, u := Guarded(c, s), Unguarded(c);
    GuardedParts(c, s);
    ActionsNonNegative(c, s);
    CumulativePrefix(g, u, |g|);
    if i < |g| {
      CumulativeGrows(Actions(c, s), i + 1, |g|);
    }
    assert Actions(c, s)[i] == u[i - |g|];
    RestIsHarmless(c, u[i - |g|]);
  }

  /** The weight that the actions of one kind have together. */
  function Share(actions: seq<(Kind, real)>, k: Kind): real {
    if actions == [] then 0.0
    else
      var last := actions[|actions| - 1];
      Share(actions[..|actions| - 1], k) + if last.0 == k then last.1 else 0.0
  }

  lemma {:induction false} ShareConcat(a: seq<(Kind, real)>, b: seq<(Kind, real)>, k: Kind)
    ensures Share(a + b, k) == Share(a, k) + Share(b, k)
    decreases |b|
  {
    if b == [] {
      assert a + b == a;
    } else {
      assert (a + b)[..|a + b| - 1] == a + b[..|b| - 1];
      ShareConcat(a, b[..|b| - 1], k);
    }
  }

  lemma ShareWhen(b: bool, x: Kind, w: real, k: Kind)
    ensures Share(When(b, x, w), k) == if b && x == k then w else 0.0
  {
    if b {
      assert [(x, w)][..0] == [];
    }
  }

  /** What an action adds to the share of a kind. */
  function Part(x: (Kind, real), k: Kind): real {
    if x.0 == k then x.1 else 0.0
  }

  lemma ShareOfTwo(x: (Kind, real), y: (Kind, real), k: Kind)
    ensures Share([x, y], k) == Part(x, k) + Part(y, k)
  {
    assert [x, y][..1] == [x] && [x][..0] == [];
    assert Share([x], k) == Part(x, k);
  }

  lemma ShareOfFour(x: (Kind, real), y: (Kind, real), z: (Kind, real), w: (Kind, real), k: Kind)
    ensures Share([x, y, z, w], k) == Part(x, k) + Part(y, k) + Part(z, k) + Part(w, k)
  {
    assert [x, y, z, w] == [x, y] + [z, w];
    ShareConcat([x, y], [z, w], k);
    ShareOfTwo(x, y, k);
    ShareOfTwo(z, w, k);
  }

  /** The weight of each of the actions that are always listed. */
  lemma SteadyShare(c: Config, k: Kind)
    ensures Share(Steady(c), k) ==
            match k
            case Reweight => c.reweight
            case GrowPool => c.pgnumGrow
            case ShrinkPool => c.pgnumShrink
            case FixPgpNum => c.pgpnumFix
            case TestPoolMinSize => c.testMinSize
            case TestBackfillFull => c.testBackfillFull
            case _ => 0.0
  {
    var all := Steady(c);
    assert all == [all[0], all[1], all[2], all[3]] + [all[4], all[5]];
    ShareConcat([all[0], all[1], all[2], all[3]], [all[4], all[5]], k);
    ShareOfFour(all[0], all[1], all[2], all[3], k);
    ShareOfTwo(all[4], all[5], k);
  }

  /** Both pauses are listed twice, and every one of them injects the stall. */
  lemma PausesShare(c: Config, k: Kind)
    ensures Share(Pauses(c), k) ==
            match k
            case PauseShort(key) => if key == "filestore_inject_stall" then c.pauseShort + c.pauseShort else 0.0
            case PauseLong(key) => if key == "filestore_inject_stall" then c.pauseLong + c.pauseLong else 0.0
            case _ => 0.0
  {
    var all := Pauses(c);
    ShareOfFour(all[0], all[1], all[2], all[3], k);
  }

  /** How much of the draw past the four actions belongs to each of the others. */
  lemma UnguardedShare(c: Config, k: Kind)
    requires NonNegative(c)
    ensures Share(Unguarded(c), k) ==
            match k
            case PrimaryAffinity => if c.primaryAffinity then 1.0 else 0.0
            case ClusterFull => c.clusterFull
            case PgUpmap => c.pgUpmap
            case PgUpmapItems => c.pgUpmapItems
            case ForceRecovery => c.forceRecovery
            case PauseShort(_) => Share(Pauses(c), k)
            case PauseLong(_) => Share(Pauses(c), k)
            case _ => Share(Steady(c), k)
  {
    var a := When(c.primaryAffinity, PrimaryAffinity, 1.0);
    var b := a + Steady(c);
    var d := b + When(c.clusterFull > 0.0, ClusterFull, c.clusterFull);
    var e := d + When(c.pgUpmap > 0.0, PgUpmap, c.pgUpmap);
    var f := e + When(c.pgUpmapItems > 0.0, PgUpmapItems, c.pgUpmapItems);
    var g := f + When(c.forceRecovery > 0.0, ForceRecovery, c.forceRecovery);
    ShareWhen(c.primaryAffinity, PrimaryAffinity, 1.0, k);
    ShareWhen(c.clusterFull > 0.0, ClusterFull, c.clusterFull, k);
    ShareWhen(c.pgUpmap > 0.0, PgUpmap, c.pgUpmap, k);
    ShareWhen(c.pgUpmapItems > 0.0, PgUpmapItems, c.pgUpmapItems, k);
    ShareWhen(c.forceRecovery > 0.0, ForceRecovery, c.forceRecovery, k);
    SteadyShare(c, k);
    PausesShare(c, k);
    ShareConcat(a, Steady(c), k);
    ShareConcat(b, When(c.clusterFull > 0.0, ClusterFull, c.clusterFull), k);
    ShareConcat(d, When(c.pgUpmap > 0.0, PgUpmap, c.pgUpmap), k);
    ShareConcat(e, When(c.pgUpmapItems > 0.0, PgUpmapItems, c.pgUpmapItems), k);
    ShareConcat(f, When(c.forceRecovery > 0.0, ForceRecovery, c.forceRecovery), k);
    ShareConcat(g, Pauses(c), k);
  }

  /**
   choose_action. What it returns is the listed action that owns the draw: one
   of the four that change the lists exactly where the draw falls on it, and
   then with its guard satisfied.
   */
  method ChooseAction(c: Config, s: Osds, drawn: real) returns (kind: Option<Kind>)
    requires NonNegative(c) && drawn >= 0.0
    ensures kind.None? <==> drawn >= Cumulative(Actions(c, s), |Actions(c, s)|)
    ensures kind == Some(OutOsd) ==> |s.ins| > c.minIn
    ensures kind == Some(KillOsd) ==> |s.live| > c.minLive
    ensures kind == Some(InOsd) ==> |s.outs| > c.minOut
    ensures kind == Some(ReviveOsd) ==> |s.dead| > c.minDead
    ensures forall a :: kind.Some? && IsOfKind(a, kind.value) ==> IsChosen(c, s, a)
    ensures kind.Some? ==> OwnedBy(Actions(c, s), drawn, kind.value)
    ensures if FallsOn(c, s, drawn).Some? then kind == FallsOn(c, s, drawn)
            else kind.None? || kind.value !in {OutOsd, KillOsd, InOsd, ReviveOsd}
  {
    ActionsNonNegative(c, s);
    var k := Select(Actions(c, s), drawn);
    if FallsOn(c, s, drawn).Some? {
      FallsOnOwner(c, s, drawn);
      OwnerIsSelected(Actions(c, s), drawn, FallsOn(c, s, drawn).value, k);
    } else if k.Some? {
      PastTheFour(c, s, drawn, k.value);
    }
    if k.None? {
      return None;
    }
    GuardsHold(c, s, k.value);
    return Some(Actions(c, s)[k.value].0);
  }

  lemma ChosenKeepsMinimum(c: Config, s: Osds, a: Action)
    requires AboveMinimum(c, s) && IsChosen(c, s, a) && Step(s, a).Some?
    ensures AboveMinimum(c, Step(s, a).value)
  {
    var i :| 0 <= i < |Actions(c, s)| && IsOfKind(a, Actions(c, s)[i].0);
    GuardsHold(c, s, i);
  }

  /** Each action of the run was one choose_action could have chosen when it was taken. */
  ghost predicate GuardedRun(c: Config, s: Osds, actions: seq<Action>) {
    actions != [] ==>
      var before := actions[..|actions| - 1];
      && GuardedRun(c, s, before) && Run(s, before).Some?
      && IsChosen(c, Run(s, before).value, actions[|actions| - 1])
  }

  /** Once the minima hold, no run of chosen actions goes below them. */
  lemma {:induction false} GuardedRunKeepsMinimum(c: Config, s: Osds, actions: seq<Action>)
    requires AboveMinimum(c, s) && GuardedRun(c, s, actions) && Run(s, actions).Some?
    ensures AboveMinimum(c, Run(s, actions).value)
    decreases |actions|
  {
    if actions != [] {
      var before := actions[..|actions| - 1];
      GuardedRunKeepsMinimum(c, s, before);
      ChosenKeepsMinimum(c, Run(s, before).value, actions[|actions| - 1]);
    }
  }

  /**
   min_dead is not protected: a chosen action keeps it exactly unless it is an
   in_osd that finds its OSD dead when no more than min_dead OSDs are.
   */
  lemma MinDeadKeptIff(c: Config, s: Osds, a: Action)
    requires |s.dead| >= c.minDead && IsChosen(c, s, a) && Step(s, a).Some?
    ensures |Step(s, a).value.dead| >= c.minDead <==> !(a.In? && a.osd in s.dead && |s.dead| == c.minDead)
  {
    var i :| 0 <= i < |Actions(c, s)| && IsOfKind(a, Actions(c, s)[i].0);
    GuardsHold(c, s, i);
  }
}
