/**
 The wait at the end of osd_scrub_pgs: poll until every placement group has
 been scrubbed since the start, and give up when there is no progress.
 */
module ScrubWait {

  const RETRIES: nat := 40

  /** A placement group and when it was last scrubbed, in seconds. */
  datatype PgStat = PgStat(pgid: string, lastScrub: int)

  // -------------------------------------------------- what replies say

  /** How many groups of the reply were scrubbed after the start. */
  function Count(reply: seq<PgStat>, start: int): (n: nat)
    ensures n <= |reply|
  {
    if reply == [] then 0
    else Count(reply[..|reply| - 1], start) + if reply[|reply| - 1].lastScrub > start then 1 else 0
  }

  predicate AllScrubbed(reply: seq<PgStat>, start: int) {
    forall s :: s in reply ==> s.lastScrub > start
  }

  /** The largest count among the first k replies. */
  function Best(replies: seq<seq<PgStat>>, start: int, k: nat): nat
    requires k <= |replies|
  {
    if k == 0 then 0
    else
      var b, c := Best(replies, start, k - 1), Count(replies[k - 1], start);
      if c > b then c else b
  }

  /** How many of the first k replies, counted from the last one back, brought nothing new. */
  function Gap(replies: seq<seq<PgStat>>, start: int, k: nat): nat
    requires k <= |replies|
  {
    if k == 0 then 0
    else if Count(replies[k - 1], start) > Best(replies, start, k - 1) then 0
    else Gap(replies, start, k - 1) + 1
  }

  /** Reply k is one too many without progress. */
  predicate GivesUp(replies: seq<seq<PgStat>>, start: int, k: nat)
    requires k < |replies|
  {
    Gap(replies, start, k + 1) > RETRIES
  }

  /** The best count so far is the largest one, and some reply had it. */
  lemma {:induction false} BestIsLargest(replies: seq<seq<PgStat>>, start: int, k: nat)
    requires k <= |replies|
    ensures forall j :: 0 <= j < k ==> Count(replies[j], start) <= Best(replies, start, k)
    ensures Best(replies, start, k) != 0 ==>
      exists j :: 0 <= j < k && Count(replies[j], start) == Best(replies, start, k)
    decreases k
  {
    if k > 0 {
      BestIsLargest(replies, start, k - 1);
      assert Count(replies[k - 1], start) <= Best(replies, start, k);
    }
  }

  /** The last n replies brought nothing new exactly when the best count is what it was before them. */
  lemma {:induction false} GapIsStandstill(replies: seq<seq<PgStat>>, start: int, k: nat, n: nat)
    requires n <= k <= |replies|
    ensures Best(replies, start, k - n) <= Best(replies, start, k)
    ensures Gap(replies, start, k) >= n <==> Best(replies, start, k) == Best(replies, start, k - n)
    decreases n
  {
    if n > 0 {
      GapIsStandstill(replies, start, k - 1, n - 1);
      GapStep(replies, start, k - 1);
    }
  }

  /** The wait gives up at a reply exactly when it and the 40 before it have not raised the best count. */
  lemma GivesUpIff(replies: seq<seq<PgStat>>, start: int, k: nat)
    requires k < |replies|
    ensures GivesUp(replies, start, k) <==>
            k >= 40 && Best(replies, start, k + 1) == Best(replies, start, k - 40)
  {
    GapAtMost(replies, start, k + 1);
    if k >= 40 {
      GapIsStandstill(replies, start, k + 1, 41);
    }
  }

  lemma {:induction false} GapAtMost(replies: seq<seq<PgStat>>, start: int, k: nat)
    requires k <= |replies|
    ensures Gap(replies, start, k) <= k
    decreases k
  {
    if k > 0 {
      GapAtMost(replies, start, k - 1);
    }
  }

  lemma GapStep(replies: seq<seq<PgStat>>, start: int, k: nat)
    requires k < |replies|
    ensures var better := Count(replies[k], start) > Best(replies, start, k);
            && Best(replies, start, k + 1) == (if better then Count(replies[k], start) else Best(replies, start, k))
            && Gap(replies, start, k + 1) == (if better then 0 else Gap(replies, start, k) + 1)
            && (GivesUp(replies, start, k) <==> !better && Gap(replies, start, k) + 1 > RETRIES)
  {
  }

  /** The groups not yet scrubbed according to the reply, in its order. */
  function Pending(reply: seq<PgStat>, start: int): seq<string> {
    if reply == [] then []
    else
      var last := reply[|reply| - 1];
      Pending(reply[..|reply| - 1], start) + if last.lastScrub > start then [] else [last.pgid]
  }

  /** After so many replies without progress the missing scrubs are asked for again. */
  predicate AsksAgain(gap: nat) {
    gap > 0 && gap % 6 == 0
  }

  lemma SixthAsks(gap: nat, n: nat)
    requires gap % 6 == 0 && 0 < n <= 6
    ensures AsksAgain(gap + n) <==> n == 6
  {
  }

  /** The scrubs asked for again over the first k replies: all pending groups, at every sixth reply without progress. */
  function Requests(replies: seq<seq<PgStat>>, start: int, k: nat): seq<string>
    requires k <= |replies|
  {
    if k == 0 then []
    else
      Requests(replies, start, k - 1) +
      if AsksAgain(Gap(replies, start, k)) then Pending(replies[k - 1], start) else []
  }

  /** The pending groups and the scrubbed ones are all there are; nothing is pending exactly when all are scrubbed. */
  lemma {:induction false} PendingIsTheRest(reply: seq<PgStat>, start: int)
    ensures |Pending(reply, start)| + Count(reply, start) == |reply|
    ensures Pending(reply, start) == [] <==> AllScrubbed(reply, start)
    ensures forall p :: p in Pending(reply, start) <==> exists s :: s in reply && s.pgid == p && s.lastScrub <= start
    decreases |reply|
  {
    if reply != [] {
      var front, last := reply[..|reply| - 1], reply[|reply| - 1];
      PendingIsTheRest(front, start);
      assert reply == front + [last];
      assert forall s :: s in reply <==> s in front || s == last;
    }
  }

  /** What one more reply adds to the requests, given the gap it leaves. */
  lemma RequestsStep(replies: seq<seq<PgStat>>, start: int, k: nat, gap: nat, again: seq<string>)
    requires k < |replies| && gap == Gap(replies, start, k + 1)
    requires again == if AsksAgain(gap) then Pending(replies[k], start) else []
    ensures Requests(replies, start, k + 1) == Requests(replies, start, k) + again
  {
  }

  /** The n-th reply in a row without progress asks exactly when it is the sixth. */
  lemma NthAsks(replies: seq<seq<PgStat>>, start: int, k: nat, gap: nat, n: nat)
    requires k < |replies| && gap % 6 == 0 && 0 < n <= 6 && Gap(replies, start, k + 1) == gap + n
    ensures n == 6 ==> Requests(replies, start, k + 1) == Requests(replies, start, k) + Pending(replies[k], start)
    ensures n < 6 ==> Requests(replies, start, k + 1) == Requests(replies, start, k)
  {
    SixthAsks(gap, n);
    RequestsStep(replies, start, k, gap + n, if n == 6 then Pending(replies[k], start) else []);
  }

  /** While there is no progress no reply before the sixth asks again. */
  lemma {:induction false} NoneBeforeTheSixth(replies: seq<seq<PgStat>>, start: int, k: nat, gap: nat, n: nat)
    requires k + n <= |replies| && n <= 5 && gap % 6 == 0
    requires Gap(replies, start, k) == gap && Gap(replies, start, k + n) == gap + n
    ensures Requests(replies, start, k + n) == Requests(replies, start, k)
    decreases n
  {
    if n > 0 {
      GapGrowsByOne(replies, start, k, n - 1);
      NoneBeforeTheSixth(replies, start, k, gap, n - 1);
      NthAsks(replies, start, k + n - 1, gap, n);
    }
  }

  /** After six replies without progress everything the sixth lacks has been asked for again, and nothing else. */
  lemma AsksAtTheSixth(replies: seq<seq<PgStat>>, start: int, k: nat)
    requires k + 6 <= |replies|
    requires Gap(replies, start, k) % 6 == 0 && Gap(replies, start, k + 6) == Gap(replies, start, k) + 6
    ensures Requests(replies, start, k + 6) == Requests(replies, start, k) + Pending(replies[k + 5], start)
  {
    var gap := Gap(replies, start, k);
    GapGrowsByOne(replies, start, k, 5);
    NoneBeforeTheSixth(replies, start, k, gap, 5);
    NthAsks(replies, start, k + 5, gap, 6);
  }

  /** A gap grows by at most one a reply, so it cannot catch up. */
  lemma {:induction false} GapGrowsByOne(replies: seq<seq<PgStat>>, start: int, k: nat, n: nat)
    requires k + n + 1 <= |replies| && Gap(replies, start, k + n + 1) == Gap(replies, start, k) + n + 1
    ensures Gap(replies, start, k + n) == Gap(replies, start, k) + n
  {
  }

  // ----------------------------------------------------------- the loop

  /** What one more group adds to the tally. */
  lemma TallyStep(reply: seq<PgStat>, start: int, i: nat)
    requires i < |reply|
    ensures var now, next, done := reply[..i], reply[..i + 1], reply[i].lastScrub > start;
            && Count(next, start) == Count(now, start) + (if done then 1 else 0)
            && Pending(next, start) == Pending(now, start) + (if done then [] else [reply[i].pgid])
            && (AllScrubbed(next, start) <==> AllScrubbed(now, start) && done)
  {
    assert reply[..i + 1][..i] == reply[..i];
    assert forall s :: s in reply[..i + 1] <==> s in reply[..i] || s == reply[i];
  }

  /** One pass over a reply. */
  method Tally(reply: seq<PgStat>, start: int) returns (thiscnt: nat, loop: bool, rescrub: seq<string>)
    ensures thiscnt == Count(reply, start)
    ensures loop <==> !AllScrubbed(reply, start)
    ensures rescrub == Pending(reply, start)
  {
    thiscnt, loop, rescrub := 0, false, [];
    for i := 0 to |reply|
      invariant thiscnt == Count(reply[..i], start)
      invariant loop <==> !AllScrubbed(reply[..i], start)
      invariant rescrub == Pending(reply[..i], start)
    {
      TallyStep(reply, start, i);
      if reply[i].lastScrub > start {
        thiscnt := thiscnt + 1;
      } else {
        loop := true;
        rescrub := rescrub + [reply[i].pgid];
      }
    }
    assert reply[..|reply|] == reply;
  }

  /** What one reply does to the two counters and which scrubs it asks for again. */
  method Round(reply: seq<PgStat>, start: int, prevGood: nat, gapCnt: nat)
    returns (prevGood': nat, gapCnt': nat, loop: bool, again: seq<string>)
    ensures prevGood' == if Count(reply, start) > prevGood then Count(reply, start) else prevGood
    ensures gapCnt' == if Count(reply, start) > prevGood then 0 else gapCnt + 1
    ensures loop <==> !AllScrubbed(reply, start)
    ensures again == if AsksAgain(gapCnt') then Pending(reply, start) else []
  {
    var thiscnt: nat;
    var rescrub: seq<string>;
    thiscnt, loop, rescrub := Tally(reply, start);
    prevGood', gapCnt', again := prevGood, gapCnt, [];
    if thiscnt > prevGood {
      prevGood' := thiscnt;
      gapCnt' := 0;
    } else {
      gapCnt' := gapCnt' + 1;
      if gapCnt' % 6 == 0 {
        again := rescrub;
      }
    }
  }

  /** Reply j is neither complete nor one too many. */
  predicate IsOpen(replies: seq<seq<PgStat>>, start: int, j: nat)
    requires j < |replies|
  {
    !AllScrubbed(replies[j], start) && !GivesUp(replies, start, j)
  }

  /** Neither success nor failure was due at any of the first k replies. */
  ghost predicate Undecided(replies: seq<seq<PgStat>>, start: int, k: nat)
    requires k <= |replies|
  {
    forall j {:trigger IsOpen(replies, start, j)} :: 0 <= j < k ==> IsOpen(replies, start, j)
  }

  /**
   The wait loop. It ends on every sequence of replies that name a bounded
   number of groups, after a bounded number of polls, and stops at the first
   reply that is either complete or one too many without progress. It succeeds
   exactly when that reply is not one too many. At every sixth reply in a row
   without progress it asks again for every scrub still missing.
   */
  method WaitForScrubs(replies: seq<seq<PgStat>>, ghost bound: nat, start: int)
    returns (ok: bool, polls: nat, requested: seq<string>)
    requires forall i :: 0 <= i < |replies| ==> |replies[i]| <= bound
    requires |replies| >= (bound + 1) * (RETRIES + 1)  // the replies go on for as long as they are asked for
    ensures 1 <= polls <= (bound + 1) * (RETRIES + 1)
    ensures Undecided(replies, start, polls - 1)
    ensures if ok then AllScrubbed(replies[polls - 1], start) && !GivesUp(replies, start, polls - 1)
            else GivesUp(replies, start, polls - 1)
    ensures requested == Requests(replies, start, polls)
  {
    var prevGood, gapCnt := 0, 0;
    var loop := true;
    polls, requested := 0, [];
    while loop
      invariant loop ==> Waiting(replies, start, bound, polls, prevGood, gapCnt, requested)
      invariant !loop ==> 0 < polls <= |replies| && Decided(replies, start, bound, polls - 1, requested)
      invariant !loop ==> AllScrubbed(replies[polls - 1], start) && !GivesUp(replies, start, polls - 1)
      decreases loop, bound - prevGood, RETRIES + 1 - gapCnt
    {
      ghost var good, gap, before := prevGood, gapCnt, requested;
      WaitingHasMore(replies, start, bound, polls, good, gap, requested);
      var again: seq<string>;
      prevGood, gapCnt, loop, again := Round(replies[polls], start, prevGood, gapCnt);
      requested := requested + again;
      WaitingStep(replies, start, bound, polls, good, gap, prevGood, gapCnt, before, again);
      polls := polls + 1;
      if gapCnt > RETRIES {
        return false, polls, requested;
      }
    }
    return true, polls, requested;
  }

  /** Nothing is decided yet, and the counters and requests are what the replies so far call for. */
  ghost predicate Waiting(replies: seq<seq<PgStat>>, start: int, bound: nat, polls: nat, prevGood: nat, gapCnt: nat,
                          requested: seq<string>) {
    && Tracks(replies, start, bound, polls, prevGood, gapCnt)
    && Undecided(replies, start, polls) && requested == Requests(replies, start, polls)
  }

  /** Reply k is the first that can decide, it came in time, and these are the requests up to it. */
  ghost predicate Decided(replies: seq<seq<PgStat>>, start: int, bound: nat, k: nat, requested: seq<string>)
    requires k < |replies|
  {
    && k + 1 <= (bound + 1) * (RETRIES + 1)
    && Undecided(replies, start, k) && requested == Requests(replies, start, k + 1)
  }

  lemma WaitingHasMore(replies: seq<seq<PgStat>>, start: int, bound: nat, polls: nat, prevGood: nat, gapCnt: nat,
                       requested: seq<string>)
    requires Waiting(replies, start, bound, polls, prevGood, gapCnt, requested)
    requires |replies| >= (bound + 1) * (RETRIES + 1)
    ensures polls < |replies| && prevGood <= bound && gapCnt <= RETRIES
  {
  }

  /** A round either gives up, or is the last, or leaves everything in step. */
  lemma WaitingStep(replies: seq<seq<PgStat>>, start: int, bound: nat, polls: nat, prevGood: nat, gapCnt: nat,
                    prevGood': nat, gapCnt': nat, requested: seq<string>, again: seq<string>)
    requires Waiting(replies, start, bound, polls, prevGood, gapCnt, requested)
    requires |replies| >= (bound + 1) * (RETRIES + 1)
    requires forall i :: 0 <= i < |replies| ==> |replies[i]| <= bound
    requires polls < |replies|
    requires prevGood' == if Count(replies[polls], start) > prevGood then Count(replies[polls], start) else prevGood
    requires gapCnt' == if Count(replies[polls], start) > prevGood then 0 else gapCnt + 1
    requires again == if AsksAgain(gapCnt') then Pending(replies[polls], start) else []
    ensures GivesUp(replies, start, polls) <==> gapCnt' > RETRIES
    ensures Decided(replies, start, bound, polls, requested + again)
    ensures gapCnt' <= RETRIES ==> prevGood' <= bound
    ensures gapCnt' <= RETRIES && !AllScrubbed(replies[polls], start) ==>
      Waiting(replies, start, bound, polls + 1, prevGood', gapCnt', requested + again)
  {
    TracksStep(replies, start, bound, polls, prevGood, gapCnt);
    RequestsStep(replies, start, polls, gapCnt', again);
  }

  /** The loop's two counters are what the replies so far say, and bound how many there can have been. */
  ghost predicate Tracks(replies: seq<seq<PgStat>>, start: int, bound: nat, polls: nat, prevGood: nat, gapCnt: nat) {
    && polls <= |replies|
    && prevGood == Best(replies, start, polls) <= bound
    && gapCnt == Gap(replies, start, polls) <= RETRIES
    && polls <= prevGood * (RETRIES + 1) + gapCnt
    && polls <= (bound + 1) * (RETRIES + 1)
  }

  lemma TracksStep(replies: seq<seq<PgStat>>, start: int, bound: nat, polls: nat, prevGood: nat, gapCnt: nat)
    requires Tracks(replies, start, bound, polls, prevGood, gapCnt)
    requires |replies| >= (bound + 1) * (RETRIES + 1)
    requires forall i :: 0 <= i < |replies| ==> |replies[i]| <= bound
    ensures polls < |replies| && polls + 1 <= (bound + 1) * (RETRIES + 1)
    ensures Gap(replies, start, polls + 1) == if Count(replies[polls], start) > prevGood then 0 else gapCnt + 1
    ensures var c := Count(replies[polls], start);
            if c > prevGood then Tracks(replies, start, bound, polls + 1, c, 0) && !GivesUp(replies, start, polls)
            else if gapCnt < RETRIES then
              Tracks(replies, start, bound, polls + 1, prevGood, gapCnt + 1) && !GivesUp(replies, start, polls)
            else GivesUp(replies, start, polls)
  {
    GapStep(replies, start, polls);
  }

  // ------------------------------------------- giving up on a success

  lemma {:induction false} CountsOnlyAll(reply: seq<PgStat>, start: int)
    ensures Count(reply, start) == |reply| <==> AllScrubbed(reply, start)
  {
    PendingIsTheRest(reply, start);
  }

  lemma {:induction false} BestIsBelow(replies: seq<seq<PgStat>>, start: int, k: nat, n: nat)
    requires k <= |replies| && n > 0 && forall j :: 0 <= j < k ==> Count(replies[j], start) < n
    ensures Best(replies, start, k) < n
    decreases k
  {
    if k > 0 {
      BestIsBelow(replies, start, k - 1, n);
    }
  }

  /** A complete reply that names a group, and no fewer than those before it, ends the wait well. */
  lemma CompleteReplySucceeds(replies: seq<seq<PgStat>>, start: int, k: nat)
    requires k < |replies| && Undecided(replies, start, k) && AllScrubbed(replies[k], start)
    requires replies[k] != [] && forall j :: 0 <= j < k ==> |replies[j]| <= |replies[k]|
    ensures !GivesUp(replies, start, k)
  {
    forall j | 0 <= j < k ensures Count(replies[j], start) < |replies[k]| {
      assert IsOpen(replies, start, j);
      CountsOnlyAll(replies[j], start);
    }
    BestIsBelow(replies, start, k, |replies[k]|);
    CountsOnlyAll(replies[k], start);
    GapStep(replies, start, k);
  }

  /** One group that stays unscrubbed for 40 polls, and then is gone for good. */
  function GoneLate(): seq<seq<PgStat>> {
    seq(RETRIES, _ => [PgStat("1.0", 0)]) + seq(RETRIES + 2, _ => [])
  }

  lemma {:induction false} GoneLateHasNoProgress(k: nat)
    requires k <= RETRIES + 1
    ensures Best(GoneLate(), 0, k) == 0 && Gap(GoneLate(), 0, k) == k
    decreases k
  {
    if k > 0 {
      GoneLateHasNoProgress(k - 1);
      assert [PgStat("1.0", 0)][..0] == [];
      assert Count(GoneLate()[k - 1], 0) == 0;
    }
  }

  /**
   A complete reply need not end the wait well: here the last of 41 polls has
   nothing left to scrub, and the wait still gives up on it.
   */
  lemma CanGiveUpOnCompleteReply()
    ensures |GoneLate()| >= (1 + 1) * (RETRIES + 1) && forall i :: 0 <= i < |GoneLate()| ==> |GoneLate()[i]| <= 1
    ensures AllScrubbed(GoneLate()[RETRIES], 0) && GivesUp(GoneLate(), 0, RETRIES)
    ensures Undecided(GoneLate(), 0, RETRIES)
  {
    GoneLateHasNoProgress(RETRIES + 1);
    forall j | 0 <= j < RETRIES ensures IsOpen(GoneLate(), 0, j) {
      GoneLateHasNoProgress(j + 1);
      assert PgStat("1.0", 0) in GoneLate()[j];
    }
  }
}
