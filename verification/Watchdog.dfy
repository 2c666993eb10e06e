/**
 The daemon watchdog: it remembers since when each daemon has been failed, one
 poll at a time, and barks when a failure has lasted too long. The table it
 keeps is exactly what the whole history of polls says.
 */
module Watchdog {
  import opened Options

  datatype Daemon = Daemon(role: string, id: string)

  /** The roles the watchdog asks for. */
  const ROLES: set<string> := {"osd", "mon", "mds", "rgw", "mgr"}

  function Name(d: Daemon): string {
    d.role + "." + d.id
  }

  /** What one round observes: the time, the failed daemons of all roles, and which thrashers hold an exception. */
  datatype Poll = Poll(now: real, failed: seq<Daemon>, thrashers: seq<bool>)

  predicate KnownRoles(p: Poll) {
    forall d :: d in p.failed ==> d.role in ROLES
  }

  /** A name stands for one daemon, so the watchdog's assertion about it cannot fail. */
  lemma NameIsInjective(d: Daemon, e: Daemon)
    requires d.role in ROLES && e.role in ROLES && Name(d) == Name(e)
    ensures d == e
  {
    assert |d.role| == 3 && |e.role| == 3;
    assert d.role == Name(d)[..3] && e.role == Name(e)[..3];
    assert d.id == Name(d)[4..] && e.id == Name(e)[4..];
  }

  // ------------------------------------------------- what history says

  function FailedNames(p: Poll): set<string> {
    set d | d in p.failed :: Name(d)
  }

  /** The first poll of the unbroken run of failures that reaches poll k. */
  function StreakStart(polls: seq<Poll>, k: nat, name: string): (i: nat)
    requires k < |polls| && name in FailedNames(polls[k])
    ensures i <= k && name in FailedNames(polls[i])
  {
    if k == 0 || name !in FailedNames(polls[k - 1]) then k else StreakStart(polls, k - 1, name)
  }

  /** That is what it is: failed throughout, and not at the poll before. */
  lemma {:induction false} StreakIsUnbroken(polls: seq<Poll>, k: nat, name: string, j: nat)
    requires k < |polls| && name in FailedNames(polls[k])
    requires StreakStart(polls, k, name) <= j <= k
    ensures name in FailedNames(polls[j])
    ensures StreakStart(polls, k, name) > 0 ==> name !in FailedNames(polls[StreakStart(polls, k, name) - 1])
    decreases k
  {
    if k > 0 && name in FailedNames(polls[k - 1]) {
      StreakIsUnbroken(polls, k - 1, name, if j == k then k - 1 else j);
    }
  }

  /** Some failure has lasted more than the timeout at poll k. */
  ghost predicate Overdue(polls: seq<Poll>, k: nat, timeout: real)
    requires k < |polls|
  {
    exists name :: name in FailedNames(polls[k]) &&
                   polls[k].now - polls[StreakStart(polls, k, name)].now > timeout
  }

  ghost predicate Alarm(polls: seq<Poll>, k: nat, timeout: real)
    requires k < |polls|
  {
    Overdue(polls, k, timeout) || true in polls[k].thrashers
  }

  /** The daemon's name is among the failed at each poll from i to k. */
  ghost predicate FailedThroughout(polls: seq<Poll>, i: nat, k: nat, name: string)
    requires k < |polls|
  {
    i <= k && forall j :: i <= j <= k ==> name in FailedNames(polls[j])
  }

  /** An unbroken run of failures lies inside the streak. */
  lemma {:induction false} StreakIsLongest(polls: seq<Poll>, i: nat, k: nat, name: string)
    requires k < |polls| && FailedThroughout(polls, i, k, name)
    ensures StreakStart(polls, k, name) <= i
    decreases k
  {
    if i < k {
      assert name in FailedNames(polls[k - 1]);
      StreakIsLongest(polls, i, k - 1, name);
    }
  }

  /**
   While the clock does not go back, the watchdog barks at a poll exactly when
   some daemon has been failed at every poll since one more than the timeout
   ago, or a thrasher holds an exception.
   */
  lemma AlarmIff(polls: seq<Poll>, k: nat, timeout: real)
    requires k < |polls| && forall i, j :: 0 <= i <= j < |polls| ==> polls[i].now <= polls[j].now
    ensures Alarm(polls, k, timeout) <==>
            || (exists b :: 0 <= b < |polls[k].thrashers| && polls[k].thrashers[b])
            || (exists i: nat, name ::
                  FailedThroughout(polls, i, k, name) && polls[k].now - polls[i].now > timeout)
  {
    if Overdue(polls, k, timeout) {
      var name :| name in FailedNames(polls[k]) && polls[k].now - polls[StreakStart(polls, k, name)].now > timeout;
      var i := StreakStart(polls, k, name);
      forall j | i <= j <= k ensures name in FailedNames(polls[j]) {
        StreakIsUnbroken(polls, k, name, j);
      }
      assert FailedThroughout(polls, i, k, name);
    }
    if i: nat, name: string :| FailedThroughout(polls, i, k, name) && polls[k].now - polls[i].now > timeout {
      assert name in FailedNames(polls[k]);
      StreakIsLongest(polls, i, k, name);
    }
  }

  // ------------------------------------------------------- the watchdog

  type Failures = map<string, (Daemon, real)>

  /** The table holds the names failed at poll k, each with its daemon and the time its streak began. */
  ghost predicate Tracks(polls: seq<Poll>, k: nat, m: Failures)
    requires k < |polls|
  {
    && m.Keys == FailedNames(polls[k])
    && forall n :: n in m ==> EntryIsRight(polls, k, n, m[n])
  }

  ghost predicate EntryIsRight(polls: seq<Poll>, k: nat, n: string, entry: (Daemon, real))
    requires k < |polls|
  {
    && entry.0.role in ROLES && Name(entry.0) == n
    && n in FailedNames(polls[k]) && entry.1 == polls[StreakStart(polls, k, n)].now
  }

  /** The table before poll k: that of the poll before, or empty at the start. */
  ghost predicate TracksBefore(polls: seq<Poll>, k: nat, m: Failures)
    requires k < |polls|
  {
    if k == 0 then m == map[] else Tracks(polls, k - 1, m)
  }

  /** An entry that is still failed keeps the time its streak began. */
  lemma EntryCarriesOver(polls: seq<Poll>, k: nat, m: Failures, n: string)
    requires k < |polls| && TracksBefore(polls, k, m) && n in m && n in FailedNames(polls[k])
    ensures EntryIsRight(polls, k, n, m[n])
  {
    assert EntryIsRight(polls, k - 1, n, m[n]);
  }

  /** A daemon that was not in the table starts a streak now. */
  lemma EntryStartsNow(polls: seq<Poll>, k: nat, m: Failures, d: Daemon)
    requires k < |polls| && TracksBefore(polls, k, m) && Name(d) !in m
    requires d in polls[k].failed && d.role in ROLES
    ensures EntryIsRight(polls, k, Name(d), (d, polls[k].now))
  {
    assert Name(d) in FailedNames(polls[k]);
  }

  /** `setdefault` for one failed daemon; the entry returned is that very daemon's. */
  method SetDefault(polls: seq<Poll>, k: nat, before: Failures, m: Failures, d: Daemon)
    returns (m': Failures, since: real)
    requires k < |polls| && TracksBefore(polls, k, before) && before.Keys <= m.Keys
    requires d in polls[k].failed && d.role in ROLES
    requires Name(d) in m ==> EntryIsRight(polls, k, Name(d), m[Name(d)])
    ensures m' == m[Name(d) := (d, since)] && (Name(d) in m ==> m' == m)
    ensures EntryIsRight(polls, k, Name(d), (d, since))
  {
    var name := Name(d);
    m' := m;
    if name !in m {
      EntryStartsNow(polls, k, before, d);
      m' := m[name := (d, polls[k].now)];
    }
    var entry := m'[name];
    NameIsInjective(entry.0, d);
    assert entry.0 == d;
    since := entry.1;
  }

  /** The table and the verdict after the names in `seen` have been noted. */
  ghost predicate Noted(polls: seq<Poll>, k: nat, timeout: real, before: Failures, m: Failures,
                        seen: set<string>, bark: bool)
    requires k < |polls|
  {
    && m.Keys == before.Keys + seen && seen <= FailedNames(polls[k])
    && (forall n :: n in m && n in FailedNames(polls[k]) ==> EntryIsRight(polls, k, n, m[n]))
    && (bark <==> exists n :: n in seen && polls[k].now - m[n].1 > timeout)
  }

  lemma NotedAtStart(polls: seq<Poll>, k: nat, timeout: real, before: Failures)
    requires k < |polls| && TracksBefore(polls, k, before)
    ensures Noted(polls, k, timeout, before, before, {}, false)
  {
    forall n | n in before && n in FailedNames(polls[k]) ensures EntryIsRight(polls, k, n, before[n]) {
      EntryCarriesOver(polls, k, before, n);
    }
  }

  lemma NotedStep(polls: seq<Poll>, k: nat, timeout: real, before: Failures, m: Failures, seen: set<string>, bark: bool,
                  d: Daemon, since: real)
    requires k < |polls| && Noted(polls, k, timeout, before, m, seen, bark)
    requires EntryIsRight(polls, k, Name(d), (d, since)) && (Name(d) in m ==> m[Name(d)] == (d, since))
    ensures Noted(polls, k, timeout, before, m[Name(d) := (d, since)], seen + {Name(d)},
                  bark || polls[k].now - since > timeout)
  {
    var m', seen' := m[Name(d) := (d, since)], seen + {Name(d)};
    assert forall n :: n in seen ==> m'[n] == m[n];
    assert m'[Name(d)].1 == since;
    if bark {
      var n :| n in seen && polls[k].now - m[n].1 > timeout;
      assert n in seen' && m'[n] == m[n];
    } else if polls[k].now - since > timeout {
      assert Name(d) in seen';
    }
  }

  lemma NotedAtEnd(polls: seq<Poll>, k: nat, timeout: real, before: Failures, m: Failures,
                   seen: set<string>, bark: bool)
    requires k < |polls| && Noted(polls, k, timeout, before, m, seen, bark) && seen == FailedNames(polls[k])
    ensures bark <==> Overdue(polls, k, timeout)
  {
    forall n | n in seen ensures m[n].1 == polls[StreakStart(polls, k, n)].now {
      assert EntryIsRight(polls, k, n, m[n]);
    }
  }

  /** The first loop of a round: note the failed daemons, and see whether one is overdue. */
  method Note(timeout: real, polls: seq<Poll>, k: nat, before: Failures) returns (m: Failures, bark: bool)
    requires k < |polls| && KnownRoles(polls[k]) && TracksBefore(polls, k, before)
    ensures m.Keys == before.Keys + FailedNames(polls[k])
    ensures forall n :: n in FailedNames(polls[k]) ==> EntryIsRight(polls, k, n, m[n])
    ensures bark <==> Overdue(polls, k, timeout)
  {
    var failed, now := polls[k].failed, polls[k].now;
    m, bark := before, false;
    ghost var seen: set<string> := {};
    NotedAtStart(polls, k, timeout, before);
    for j := 0 to |failed|
      invariant Noted(polls, k, timeout, before, m, seen, bark)
      invariant forall i :: 0 <= i < j ==> Name(failed[i]) in seen
    {
      var since: real;
      var d := failed[j];
      assert Name(d) in FailedNames(polls[k]);
      ghost var was, barked := m, bark;
      m, since := SetDefault(polls, k, before, m, d);
      NotedStep(polls, k, timeout, before, was, seen, barked, d, since);
      seen := seen + {Name(d)};
      if now - since > timeout {
        bark := true;
      }
    }
    assert seen == FailedNames(polls[k]);
    NotedAtEnd(polls, k, timeout, before, m, seen, bark);
  }

  /** The second loop: names that are no longer failed are forgotten. */
  method Forget(m: Failures, current: set<string>) returns (kept: Failures)
    ensures kept.Keys == m.Keys * current
    ensures forall n :: n in kept ==> kept[n] == m[n]
  {
    kept := m;
    var names := m.Keys;
    while names != {}
      invariant names <= m.Keys
      invariant kept.Keys == m.Keys * current + (names - current)
      invariant forall n :: n in kept ==> kept[n] == m[n]
      decreases names
    {
      var name :| name in names;
      if name !in current {
        kept := kept - {name};
      }
      names := names - {name};
    }
  }

  /** The third loop: any thrasher with an exception. */
  method AnyException(thrashers: seq<bool>) returns (found: bool)
    ensures found <==> true in thrashers
  {
    found := false;
    for i := 0 to |thrashers|
      invariant found <==> true in thrashers[..i]
    {
      if thrashers[i] {
        found := true;
      }
    }
    assert thrashers[..|thrashers|] == thrashers;
  }

  /**
   watch, over the polls until it is stopped: it barks at the first poll that
   history calls an alarm, and only there.
   */
  method Watch(timeout: real, polls: seq<Poll>) returns (barkedAt: Option<nat>)
    requires forall k :: 0 <= k < |polls| ==> KnownRoles(polls[k])
    ensures barkedAt.Some? ==> barkedAt.value < |polls| && Alarm(polls, barkedAt.value, timeout)
    ensures forall j :: 0 <= j < (if barkedAt.Some? then barkedAt.value else |polls|) ==> !Alarm(polls, j, timeout)
  {
    var m: Failures := map[];
    for k := 0 to |polls|
      invariant k < |polls| ==> TracksBefore(polls, k, m)
      invariant forall j :: 0 <= j < k ==> !Alarm(polls, j, timeout)
    {
      var noted, bark := Note(timeout, polls, k, m);
      m := Forget(noted, FailedNames(polls[k]));
      assert Tracks(polls, k, m);
      var exception := AnyException(polls[k].thrashers);
      if exception {
        bark := true;
      }
      if bark {
        return Some(k);
      }
    }
    return None;
  }
}
