/** The download loop of `sync/torrent_client.py`: when a torrent counts as stalled. */
module StallDetector {

  /** One poll of the torrent handle; `seeding` is libtorrent's own flag. */
  datatype Poll = Poll(now: real, totalDone: nat, progress: real, checking: bool, seeding: bool)

  datatype Limits = Limits(checkingGrace: real, stallAt99: real)

  datatype Verdict = Running | Finished | Stalled

  /** The loop's local variables. */
  datatype Watch = Watch(lastProgressChange: real, lastTotalDone: int, lastCheckStart: real)

  const RARE_TAIL: real := 0.99
  const BASE: real := 900.0

  function Max(a: real, b: real): real {
    if a >= b then a else b
  }

  /** `_adaptive_stall_timeout` */
  function AdaptiveStallTimeout(progress: real, base: real, at99: real): (t: real)
    ensures base <= t <= Max(base, Max(1800.0, at99))
  {
    if progress >= RARE_TAIL then Max(base, at99)
    else if progress >= 0.95 then Max(base, 1800.0)
    else if progress >= 0.90 then Max(base, 1200.0)
    else base
  }

  ghost predicate GrowsWithProgress(base: real, at99: real) {
    forall p: real, q: real :: p <= q ==> AdaptiveStallTimeout(p, base, at99) <= AdaptiveStallTimeout(q, base, at99)
  }

  /**
    The timeout is said to scale up as the download nears completion. It does so
    exactly when the window for the last percent is no shorter than the half hour before it.
    */
  lemma GrowsWithProgressIff(base: real, at99: real)
    ensures GrowsWithProgress(base, at99) <==> at99 >= 1800.0 || base >= 1800.0
    ensures AdaptiveStallTimeout(0.9, base, at99) == Max(base, 1200.0)
  {
    if GrowsWithProgress(base, at99) {
      assert AdaptiveStallTimeout(0.95, base, at99) <= AdaptiveStallTimeout(0.99, base, at99);
    }
  }

  function Begin(start: real): Watch {
    Watch(start, -1, start)
  }

  /** What one poll does to the local variables. */
  function Update(w: Watch, o: Poll, limits: Limits): Watch {
    if o.totalDone != w.lastTotalDone then Watch(o.now, o.totalDone, o.now)
    else if o.checking && o.progress < RARE_TAIL && o.now - w.lastCheckStart <= limits.checkingGrace
    then w.(lastProgressChange := o.now)
    else w
  }

  function Judge(w: Watch, o: Poll, limits: Limits): Verdict {
    if o.seeding || o.progress >= 1.0 then Finished
    else if o.now - w.lastProgressChange > AdaptiveStallTimeout(o.progress, BASE, limits.stallAt99) then Stalled
    else Running
  }

  function After(start: real, polls: seq<Poll>, limits: Limits): Watch {
    if polls == [] then Begin(start)
    else Update(After(start, polls[..|polls| - 1], limits), polls[|polls| - 1], limits)
  }

  /** The verdict at the last of these polls. */
  function VerdictAfter(start: real, polls: seq<Poll>, limits: Limits): Verdict
    requires polls != []
  {
    Judge(After(start, polls, limits), polls[|polls| - 1], limits)
  }

  /** The loop is still going after all of these polls. */
  ghost predicate StillRunning(start: real, polls: seq<Poll>, limits: Limits) {
    polls == []
    || (VerdictAfter(start, polls, limits) == Running && StillRunning(start, polls[..|polls| - 1], limits))
  }

  class TorrentClient {
    const limits: Limits

    constructor (checkingGraceS: real, stallAt99S: real)
      ensures limits == Limits(checkingGraceS, stallAt99S)
    {
      limits := Limits(checkingGraceS, stallAt99S);
    }

    /** `_download_with_handle` on what the handle reports; `Running` when the reports end first. */
    method DownloadWithHandle(start: real, polls: seq<Poll>) returns (verdict: Verdict, used: nat)
      ensures used <= |polls|
      ensures verdict == Running ==> used == |polls| && StillRunning(start, polls, limits)
      ensures verdict != Running ==>
        && 0 < used && StillRunning(start, polls[..used - 1], limits)
        && VerdictAfter(start, polls[..used], limits) == verdict
    {
      var lastProgressChange, lastTotalDone: int, lastCheckStart := start, -1, start;
      used := 0;
      while used < |polls|
        invariant used <= |polls|
        invariant Watch(lastProgressChange, lastTotalDone, lastCheckStart) == After(start, polls[..used], limits)
        invariant StillRunning(start, polls[..used], limits)
        decreases |polls| - used
      {
        var o := polls[used];
        ghost var seen := polls[..used + 1];
        assert seen[..used] == polls[..used];
        if o.totalDone != lastTotalDone {
          lastTotalDone := o.totalDone;
          lastProgressChange := o.now;
          lastCheckStart := o.now;
        } else if o.checking {
          if o.progress >= RARE_TAIL {
            // the rare-tail timeout runs whatever libtorrent claims
          } else if o.now - lastCheckStart > limits.checkingGrace {
            // grace exhausted
          } else {
            lastProgressChange := o.now;
          }
        }
        used := used + 1;
        assert After(start, seen, limits) == Watch(lastProgressChange, lastTotalDone, lastCheckStart);
        if o.seeding || o.progress >= 1.0 {
          return Finished, used;
        }
        var stalled := o.now - lastProgressChange;
        if stalled > AdaptiveStallTimeout(o.progress, BASE, limits.stallAt99) {
          return Stalled, used;
        }
      }
      assert polls[..used] == polls;
      verdict := Running;
    }
  }

  // ---- The last change of total_done ------------------------------------------------------

  /** Index of the poll that last changed `totalDone`. */
  function LastChange(polls: seq<Poll>): (i: nat)
    requires polls != []
    ensures i < |polls|
    ensures forall j :: i <= j < |polls| ==> polls[j].totalDone == polls[|polls| - 1].totalDone
    ensures i > 0 ==> polls[i - 1].totalDone != polls[i].totalDone
  {
    var n := |polls| - 1;
    if n == 0 || polls[n].totalDone != polls[n - 1].totalDone then n
    else
      var i := LastChange(polls[..n]);
      assert forall j :: i <= j < n ==> polls[..n][j] == polls[j];
      i
  }

  /** Time since then, at the last poll. */
  function Unchanged(polls: seq<Poll>): real
    requires polls != []
  {
    polls[|polls| - 1].now - polls[LastChange(polls)].now
  }

  ghost predicate InOrder(start: real, polls: seq<Poll>) {
    && (forall i :: 0 <= i < |polls| ==> start <= polls[i].now)
    && (forall i, j :: 0 <= i <= j < |polls| ==> polls[i].now <= polls[j].now)
  }

  lemma InOrderPrefix(start: real, polls: seq<Poll>, n: nat)
    requires n <= |polls| && InOrder(start, polls)
    ensures InOrder(start, polls[..n])
  {
  }

  /** The stall clock starts at the last change, and checking moves it by no more than the grace. */
  lemma {:induction false} ClockTracksLastChange(start: real, polls: seq<Poll>, limits: Limits)
    requires polls != [] && InOrder(start, polls)
    ensures var w, c := After(start, polls, limits), polls[LastChange(polls)].now;
            && w.lastTotalDone == polls[|polls| - 1].totalDone
            && w.lastCheckStart == c
            && c <= w.lastProgressChange <= c + Max(0.0, limits.checkingGrace)
            && w.lastProgressChange <= polls[|polls| - 1].now
  {
    var n := |polls| - 1;
    if n == 0 {
      assert polls[..0] == [];
    } else {
      InOrderPrefix(start, polls, n);
      ClockTracksLastChange(start, polls[..n], limits);
      assert polls[LastChange(polls[..n])] == polls[..n][LastChange(polls[..n])];
    }
  }

  ghost predicate InTail(polls: seq<Poll>)
    requires polls != []
  {
    forall j :: LastChange(polls) <= j < |polls| ==> polls[j].progress >= RARE_TAIL
  }

  /** With all polls since the last change at 99% or more, checking does not move the clock at all. */
  lemma {:induction false} TailClock(start: real, polls: seq<Poll>, limits: Limits)
    requires polls != [] && InOrder(start, polls) && InTail(polls)
    ensures After(start, polls, limits).lastProgressChange == polls[LastChange(polls)].now
  {
    hide AdaptiveStallTimeout, InOrder;
    var n := |polls| - 1;
    if n > 0 {
      var front := polls[..n];
      InOrderPrefix(start, polls, n);
      ClockTracksLastChange(start, front, limits);
      if polls[n].totalDone == polls[n - 1].totalDone {
        assert LastChange(polls) == LastChange(front);
        assert forall j :: 0 <= j < n ==> front[j] == polls[j];
        assert polls[n].progress >= RARE_TAIL;
        TailClock(start, front, limits);
      }
    }
  }

  /** Poll `j` sets the stall clock: the last change itself, or a check below 99% within the grace after it. */
  predicate SetsClock(polls: seq<Poll>, j: nat, grace: real)
    requires j < |polls|
  {
    var c := LastChange(polls);
    || j == c
    || (j > c && polls[j].checking && polls[j].progress < 0.99 && polls[j].now - polls[c].now <= grace)
  }

  /** The last poll that does. */
  ghost predicate LastToSet(polls: seq<Poll>, j: nat, grace: real) {
    j < |polls| && SetsClock(polls, j, grace) && forall i :: j < i < |polls| ==> !SetsClock(polls, i, grace)
  }

  lemma ChangeStep(polls: seq<Poll>, j: nat, grace: real)
    requires |polls| > 1 && j < |polls| - 1
    requires var n := |polls| - 1; polls[n].totalDone == polls[n - 1].totalDone
    ensures var n := |polls| - 1; SetsClock(polls[..n], j, grace) <==> SetsClock(polls, j, grace)
  {
    LastChangeStep(polls);
  }

  /** The loop's variables in terms of the polls: the clock shows the last poll that set it. */
  lemma {:induction false} StallClock(start: real, polls: seq<Poll>, limits: Limits, j: nat)
    requires polls != [] && LastToSet(polls, j, limits.checkingGrace)
    requires polls[0].totalDone >= 0
    ensures var w := After(start, polls, limits);
            && w.lastTotalDone == polls[|polls| - 1].totalDone && w.lastCheckStart == polls[LastChange(polls)].now
            && w.lastProgressChange == polls[j].now
  {
    hide SetsClock;
    var n := |polls| - 1;
    if n == 0 {
      assert polls[..0] == [];
    } else {
      var front := polls[..n];
      LastChangeStep(polls);
      var i := LastSetter(front, limits.checkingGrace);
      StallClock(start, front, limits, i);
      ClockStep(start, polls, limits, i, j);
    }
  }

  lemma LastSetter(polls: seq<Poll>, grace: real) returns (j: nat)
    requires polls != []
    ensures LastToSet(polls, j, grace)
  {
    j := |polls| - 1;
    while !SetsClock(polls, j, grace)
      invariant LastChange(polls) <= j < |polls| && forall i :: j < i < |polls| ==> !SetsClock(polls, i, grace)
      decreases j
    {
      j := j - 1;
    }
  }

  lemma ClockStep(start: real, polls: seq<Poll>, limits: Limits, i: nat, j: nat)
    requires |polls| > 1 && LastToSet(polls, j, limits.checkingGrace) && LastToSet(polls[..|polls| - 1], i, limits.checkingGrace)
    requires var n := |polls| - 1;
             var w := After(start, polls[..n], limits);
             && w.lastTotalDone == polls[n - 1].totalDone && w.lastCheckStart == polls[..n][LastChange(polls[..n])].now
             && w.lastProgressChange == polls[i].now
    ensures var n := |polls| - 1;
            var w := After(start, polls, limits);
            && w.lastTotalDone == polls[n].totalDone && w.lastCheckStart == polls[LastChange(polls)].now
            && w.lastProgressChange == polls[j].now
  {
    var n := |polls| - 1;
    LastChangeStep(polls);
    if polls[n].totalDone == polls[n - 1].totalDone {
      forall m | 0 <= m < n ensures SetsClock(polls[..n], m, limits.checkingGrace) <==> SetsClock(polls, m, limits.checkingGrace) {
        ChangeStep(polls, m, limits.checkingGrace);
      }
      if !SetsClock(polls, n, limits.checkingGrace) {
        assert j < n;
        assert i == j;
      }
    }
  }

  /**
    When a download stalls, in seconds: the last poll is neither seeding nor complete, and the clock is further
    back than 900, from 90% on than 1200, from 95% on than 1800, and from 99% on than the configured window or 900.
    */
  lemma StallsIff(start: real, polls: seq<Poll>, limits: Limits, j: nat)
    requires polls != [] && LastToSet(polls, j, limits.checkingGrace) && polls[0].totalDone >= 0
    ensures var o := polls[|polls| - 1];
            var limit := if o.progress >= 0.99 then (if limits.stallAt99 >= 900.0 then limits.stallAt99 else 900.0)
                         else if o.progress >= 0.95 then 1800.0 else if o.progress >= 0.9 then 1200.0 else 900.0;
            && (VerdictAfter(start, polls, limits) == Finished <==> o.seeding || o.progress >= 1.0)
            && (VerdictAfter(start, polls, limits) == Stalled <==> !o.seeding && o.progress < 1.0 && o.now - polls[j].now > limit)
  {
    hide LastToSet, LastChange;
    StallClock(start, polls, limits, j);
    hide After;
  }

  // ---- No false stall ---------------------------------------------------------------------

  /** A stall means more than 900 s without any change, and not a check within its grace. */
  lemma NoFalseStall(start: real, polls: seq<Poll>, limits: Limits)
    requires polls != [] && InOrder(start, polls) && VerdictAfter(start, polls, limits) == Stalled
    ensures Unchanged(polls) > 900.0
    ensures var o := polls[|polls| - 1];
            !(o.checking && o.progress < RARE_TAIL && Unchanged(polls) <= limits.checkingGrace)
    ensures !polls[|polls| - 1].seeding && polls[|polls| - 1].progress < 1.0
  {
    var n := |polls| - 1;
    ClockTracksLastChange(start, polls, limits);
    if n > 0 {
      InOrderPrefix(start, polls, n);
      ClockTracksLastChange(start, polls[..n], limits);
      assert polls[LastChange(polls[..n])] == polls[..n][LastChange(polls[..n])];
    }
  }

  /** In the rare tail the verdict is the configured window and nothing else: checking cannot delay it. */
  lemma TailStallsExactlyAtLimit(start: real, polls: seq<Poll>, limits: Limits)
    requires polls != [] && InOrder(start, polls) && InTail(polls)
    ensures VerdictAfter(start, polls, limits) == Stalled
       <==> !polls[|polls| - 1].seeding && polls[|polls| - 1].progress < 1.0 && Unchanged(polls) > Max(BASE, limits.stallAt99)
  {
    TailClock(start, polls, limits);
  }

  // ---- How long a download can take ----------------------------------------------------------

  /** The longest time without progress that the loop tolerates. */
  function Patience(limits: Limits): real {
    Max(0.0, limits.checkingGrace) + Max(1800.0, limits.stallAt99)
  }

  /** While the loop continues, the last change is no further back than that. */
  lemma PatienceBoundsUnchanged(start: real, polls: seq<Poll>, limits: Limits)
    requires polls != [] && InOrder(start, polls) && VerdictAfter(start, polls, limits) == Running
    ensures Unchanged(polls) <= Patience(limits)
  {
    ClockTracksLastChange(start, polls, limits);
  }

  /** A check that lasts the whole grace, and then silence in the band with the longest window. */
  function LongestWait(t: real, limits: Limits): seq<Poll> {
    var g := t + Max(0.0, limits.checkingGrace);
    [Poll(t, 0, 0.95, true, false), Poll(g, 0, 0.95, true, false),
     if limits.stallAt99 <= 1800.0 then Poll(g + 1800.0, 0, 0.95, false, false) else Poll(g + limits.stallAt99, 0, 0.99, false, false)]
  }

  /** The bound is sharp, whatever the limits. */
  lemma PatienceIsReached(t: real, limits: Limits)
    ensures var polls := LongestWait(t, limits);
            StillRunning(t, polls, limits) && InOrder(t, polls) && Unchanged(polls) == Patience(limits)
  {
    var polls := LongestWait(t, limits);
    var a, b, c := polls[0], polls[1], polls[2];
    assert [a][..0] == [] && [a, b][..1] == [a] && [a, b, c][..2] == [a, b];
    assert After(t, [a], limits) == Watch(t, 0, t);
    assert After(t, [a, b], limits) == Watch(b.now, 0, t);
    assert After(t, polls, limits) == Watch(b.now, 0, t);
    assert StillRunning(t, [], limits) && StillRunning(t, [a], limits) && StillRunning(t, [a, b], limits);
    assert LastChange([a]) == 0 && LastChange([a, b]) == 0;
  }

  function Times(k: nat, x: real): real {
    k as real * x
  }

  lemma TimesMonotone(k: nat, m: nat, x: real)
    requires k <= m && x >= 0.0
    ensures Times(k, x) <= Times(m, x)
  {
    assert Times(m, x) - Times(k, x) == (m - k) as real * x;
  }

  lemma TimesNext(k: nat, x: real)
    ensures Times(k + 1, x) == Times(k, x) + x
  {
  }

  /** Polls at most `d` apart, and `totalDone` never going back. */
  ghost predicate Steady(polls: seq<Poll>, d: real) {
    forall i :: 0 < i < |polls| ==>
      polls[i].now - polls[i - 1].now <= d && polls[i - 1].totalDone <= polls[i].totalDone
  }

  /** Every new value of `totalDone` buys at most one more patience and one poll interval. */
  lemma {:induction false} TimeBoughtByProgress(start: real, polls: seq<Poll>, limits: Limits, d: real)
    requires polls != [] && InOrder(start, polls) && Steady(polls, d) && d >= 0.0
    requires StillRunning(start, polls, limits)
    ensures polls[0].totalDone <= polls[|polls| - 1].totalDone
    ensures polls[LastChange(polls)].now - polls[0].now
         <= Times(polls[|polls| - 1].totalDone - polls[0].totalDone, Patience(limits) + d)
  {
    hide Patience, VerdictAfter, Times, InOrder, Steady;
    var n := |polls| - 1;
    var c := Patience(limits) + d;
    PatiencePositive(limits);
    TimesZero(c);
    if n > 0 {
      var front := polls[..n];
      SteadyPrefix(polls, d);
      InOrderPrefix(start, polls, n);
      TimeBoughtByProgress(start, front, limits, d);
      LastChangeStep(polls);
      hide LastChange;
      var before, now := front[n - 1].totalDone - polls[0].totalDone, polls[n].totalDone - polls[0].totalDone;
      if polls[n].totalDone != polls[n - 1].totalDone {
        PatienceBoundsUnchanged(start, front, limits);
        OneMoreChange(before, now, Patience(limits), d, front[LastChange(front)].now - polls[0].now, polls[n].now - polls[0].now);
      }
    }
  }

  lemma LastChangeStep(polls: seq<Poll>)
    requires |polls| > 1
    ensures var n := |polls| - 1;
            if polls[n].totalDone != polls[n - 1].totalDone then LastChange(polls) == n
            else LastChange(polls) == LastChange(polls[..n]) && polls[LastChange(polls)] == polls[..n][LastChange(polls[..n])]
  {
  }

  lemma SteadyPrefix(polls: seq<Poll>, d: real)
    requires |polls| > 1 && Steady(polls, d)
    ensures var n := |polls| - 1;
            Steady(polls[..n], d) && polls[n].now - polls[n - 1].now <= d && polls[n - 1].totalDone <= polls[n].totalDone
  {
  }

  lemma OneMoreChange(before: nat, now: nat, patience: real, d: real, t: real, u: real)
    requires before < now && patience >= 0.0 && d >= 0.0
    requires t <= Times(before, patience + d) && u <= t + patience + d
    ensures u <= Times(now, patience + d)
  {
    TimesNext(before, patience + d);
    TimesMonotone(before + 1, now, patience + d);
  }

  lemma PatiencePositive(limits: Limits)
    ensures Patience(limits) >= 1800.0
  {
  }

  lemma TimesZero(x: real)
    ensures Times(0, x) == 0.0
  {
  }

  /** The loop ends: it cannot still be running once the whole payload's worth of patience is used up. */
  lemma RunningTimeBound(start: real, polls: seq<Poll>, limits: Limits, d: real, total: nat)
    requires polls != [] && InOrder(start, polls) && Steady(polls, d) && d >= 0.0
    requires polls[|polls| - 1].totalDone <= total
    requires StillRunning(start, polls, limits)
    ensures polls[|polls| - 1].now - polls[0].now <= Times(total, Patience(limits) + d) + Patience(limits)
    ensures polls[|polls| - 1].now - polls[0].now <= Times(total + 1, Patience(limits) + d)
  {
    hide Times, Patience, InOrder, Steady, VerdictAfter, LastChange;
    PatiencePositive(limits);
    TimeBoughtByProgress(start, polls, limits, d);
    PatienceBoundsUnchanged(start, polls, limits);
    TimesMonotone(polls[|polls| - 1].totalDone - polls[0].totalDone, total, Patience(limits) + d);
    TimesNext(total, Patience(limits) + d);
  }
}
