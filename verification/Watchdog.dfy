/** The watchdog: health checks, restarts with back-off, quarantine (kernel/watchdog.py). */
module Watchdog {

  const FAILURE_THRESHOLD := 3
  const QUARANTINE_THRESHOLD := 5
  const MAX_BACKOFF_S := 300
  const POLL_INTERVAL_S := 10.0

  datatype SubsystemState = Healthy | Degraded | Restarting | Quarantined | Unknown

  datatype Record = Record(
    canRestart: bool, state: SubsystemState, consecutive: nat, total: nat, restarts: nat,
    lastChecked: real, lastOk: real, lastRestart: real)

  /** What one check meets: its outcome, that of a restart, and the clock at each reading. */
  datatype Poll =
    Poll(healthy: bool, restartOk: bool, checkedAt: real, decidedAt: real, restartedAt: real, doneAt: real)

  function Pow2(n: nat): nat {
    if n == 0 then 1 else 2 * Pow2(n - 1)
  }

  /** Back-off before the next restart, after a number of restarts. */
  function Delay(restarts: nat): nat {
    if Pow2(restarts) < MAX_BACKOFF_S then Pow2(restarts) else MAX_BACKOFF_S
  }

  function Registered(canRestart: bool): Record {
    Record(canRestart, Unknown, 0, 0, 0, 0.0, 0.0, 0.0)
  }

  predicate InBackoff(r: Record, now: real) {
    r.lastRestart > 0.0 && now - r.lastRestart < Delay(r.restarts) as real
  }

  /** Would an attempt restart the subsystem, rather than give up or wait? */
  predicate Restarts(r: Record, p: Poll) {
    r.canRestart && !InBackoff(r, p.decidedAt) && r.restarts < QUARANTINE_THRESHOLD
  }

  function AttemptRestart(r: Record, p: Poll): Record {
    if !r.canRestart then r.(state := Quarantined)
    else if InBackoff(r, p.decidedAt) then r
    else if r.restarts >= QUARANTINE_THRESHOLD then r.(state := Quarantined)
    else
      var tried := r.(state := Restarting, lastRestart := p.restartedAt, restarts := r.restarts + 1);
      if p.restartOk then tried.(consecutive := 0, state := Healthy, lastOk := p.doneAt) else tried
  }

  function Failed(r: Record, p: Poll): Record {
    r.(lastChecked := p.checkedAt, consecutive := r.consecutive + 1, total := r.total + 1)
  }

  function CheckOne(r: Record, p: Poll): Record {
    if p.healthy then r.(lastChecked := p.checkedAt, state := Healthy, consecutive := 0, lastOk := p.decidedAt)
    else
      var failed := Failed(r, p);
      if failed.consecutive == 1 then failed.(state := Degraded)
      else if failed.consecutive >= FAILURE_THRESHOLD then AttemptRestart(failed, p)
      else failed
  }

  /** A quarantined subsystem is not checked. */
  function Step(r: Record, p: Poll): Record {
    if r.state.Quarantined? then r else CheckOne(r, p)
  }

  /** Does this poll restart the subsystem? */
  predicate RestartsAt(r: Record, p: Poll) {
    && !r.state.Quarantined? && !p.healthy
    && r.consecutive + 1 >= FAILURE_THRESHOLD && Restarts(Failed(r, p), p)
  }

  function Run(r: Record, polls: seq<Poll>): Record {
    if polls == [] then r else Step(Run(r, polls[..|polls| - 1]), polls[|polls| - 1])
  }

  /* ---------- manual control ---------- */

  function ManualRestart(r: Record, p: Poll): Record {
    AttemptRestart(r.(state := Degraded, restarts := 0, consecutive := FAILURE_THRESHOLD), p)
  }

  function Resume(r: Record): Record {
    if r.state.Quarantined? then r.(state := Unknown, restarts := 0, consecutive := 0) else r
  }

  /**
   A manual restart clears quarantine unless the subsystem cannot be restarted, renews the budget, and restarts at
   once unless the last restart is less than a second old; failing checks in a row then go on from the third.
   */
  lemma {:induction false} ManualRestartOutcome(r: Record, p: Poll)
    ensures var after := ManualRestart(r, p);
      var waits := r.lastRestart > 0.0 && p.decidedAt - r.lastRestart < 1.0;
      && after.state == (if !r.canRestart then Quarantined else if waits then Degraded
                         else if p.restartOk then Healthy else Restarting)
      && after.restarts == (if r.canRestart && !waits then 1 else 0)
      && after.consecutive == (if r.canRestart && !waits && p.restartOk then 0 else 3)
      && after.lastRestart == (if r.canRestart && !waits then p.restartedAt else r.lastRestart)
  {
  }

  /** Resuming lifts a quarantine and renews the budget; nothing else is resumed. */
  lemma {:induction false} ResumeOutcome(r: Record)
    ensures Resume(r) ==
      if r.state == Quarantined then r.(state := Unknown, restarts := 0, consecutive := 0) else r
  {
  }

  /* ---------- runs without manual control ---------- */

  /** Each poll reads a clock that shows positive times and does not run backwards. */
  predicate Timed(from: real, polls: seq<Poll>) {
    polls == [] ||
    var p := polls[|polls| - 1];
    && Timed(from, polls[..|polls| - 1])
    && Clock(from, polls[..|polls| - 1]) <= p.checkedAt <= p.decidedAt <= p.restartedAt <= p.doneAt
  }

  /** The time when the last poll of a run was done. */
  function Clock(from: real, polls: seq<Poll>): real {
    if polls == [] then from else polls[|polls| - 1].doneAt
  }

  /** The times at which the run restarts the subsystem. */
  function RestartTimes(r: Record, polls: seq<Poll>): seq<real> {
    if polls == [] then []
    else
      var front, p := polls[..|polls| - 1], polls[|polls| - 1];
      RestartTimes(r, front) + if RestartsAt(Run(r, front), p) then [p.restartedAt] else []
  }

  /** How many failed checks there have been since the last success: a healthy check or a restart that worked. */
  function SinceSuccess(r: Record, polls: seq<Poll>): nat {
    if polls == [] then 0
    else
      var front, p := polls[..|polls| - 1], polls[|polls| - 1];
      if p.healthy || (RestartsAt(Run(r, front), p) && p.restartOk) then 0 else 1 + SinceSuccess(r, front)
  }

  /** Restarts are counted, never forgotten, and number at most five in all, whether or not they succeed. */
  lemma {:induction false} RestartBudget(canRestart: bool, polls: seq<Poll>)
    ensures var r := Run(Registered(canRestart), polls);
      && r.restarts == |RestartTimes(Registered(canRestart), polls)| <= QUARANTINE_THRESHOLD
      && r.canRestart == canRestart
  {
    if polls != [] {
      RestartBudget(canRestart, polls[..|polls| - 1]);
    }
  }

  /** After a resume there are again at most five restarts before the next manual control. */
  lemma {:induction false} ResumedBudget(r: Record, polls: seq<Poll>)
    requires r.state.Quarantined?
    ensures var after := Run(Resume(r), polls);
      after.restarts == |RestartTimes(Resume(r), polls)| <= QUARANTINE_THRESHOLD
    ensures Run(Resume(r), polls).state.Quarantined? && r.canRestart ==>
      |RestartTimes(Resume(r), polls)| == QUARANTINE_THRESHOLD
  {
    if polls != [] {
      ResumedBudget(r, polls[..|polls| - 1]);
      ResumedKeepsFunction(r, polls[..|polls| - 1]);
    }
  }

  lemma {:induction false} ResumedKeepsFunction(r: Record, polls: seq<Poll>)
    ensures Run(Resume(r), polls).canRestart == r.canRestart
  {
    if polls != [] {
      ResumedKeepsFunction(r, polls[..|polls| - 1]);
    }
  }

  /** The last restart is the last one listed, and lies in the past. */
  lemma {:induction false} LastRestart(canRestart: bool, from: real, polls: seq<Poll>)
    requires from > 0.0 && Timed(from, polls)
    ensures var times := RestartTimes(Registered(canRestart), polls);
      && Run(Registered(canRestart), polls).lastRestart == (if times == [] then 0.0 else times[|times| - 1])
      && Clock(from, polls) > 0.0
      && (times != [] ==> 0.0 < times[|times| - 1] <= Clock(from, polls))
  {
    if polls != [] {
      LastRestart(canRestart, from, polls[..|polls| - 1]);
    }
  }

  /** Exponential back-off: restart k + 1 comes at least min(300, 2^k) seconds after restart k. */
  lemma {:induction false} BackoffBetweenRestarts(canRestart: bool, from: real, polls: seq<Poll>, k: nat)
    requires from > 0.0 && Timed(from, polls)
    requires 0 < k < |RestartTimes(Registered(canRestart), polls)|
    ensures var times := RestartTimes(Registered(canRestart), polls);
      times[k] - times[k - 1] >= Delay(k) as real
    decreases |polls|
  {
    var front, p := polls[..|polls| - 1], polls[|polls| - 1];
    var before := RestartTimes(Registered(canRestart), front);
    if k < |before| {
      BackoffBetweenRestarts(canRestart, from, front, k);
    } else {
      RestartBudget(canRestart, front);
      LastRestart(canRestart, from, front);
      var r := Run(Registered(canRestart), front);
      assert r.restarts == k && r.lastRestart == before[k - 1];
      assert !InBackoff(Failed(r, p), p.decidedAt);
    }
  }

  /** Until quarantine the record counts exactly the failed checks since the last success. */
  lemma {:induction false} FailuresAreConsecutive(canRestart: bool, polls: seq<Poll>)
    ensures var r := Run(Registered(canRestart), polls);
      r.state.Quarantined? || r.consecutive == SinceSuccess(Registered(canRestart), polls)
  {
    if polls != [] {
      FailuresAreConsecutive(canRestart, polls[..|polls| - 1]);
    }
  }

  /** Until quarantine a subsystem that has been polled shows as healthy exactly after a success. */
  lemma {:induction false} HealthyIffSuccess(canRestart: bool, polls: seq<Poll>)
    requires polls != []
    ensures var r := Run(Registered(canRestart), polls);
      && (r.state.Quarantined? || (r.state.Healthy? <==> SinceSuccess(Registered(canRestart), polls) == 0))
      && (r.state.Degraded? ==> SinceSuccess(Registered(canRestart), polls) > 0)
      && (SinceSuccess(Registered(canRestart), polls) == 1 ==> r.state.Degraded? || r.state.Quarantined?)
  {
    var front := polls[..|polls| - 1];
    FailuresAreConsecutive(canRestart, front);
    FailuresAreConsecutive(canRestart, polls);
    if front != [] {
      HealthyIffSuccess(canRestart, front);
    }
  }

  /** A check is noted with its time, a failed one counted, and a success noted with its own time. */
  lemma {:induction false} CheckIsNoted(r: Record, p: Poll)
    requires !r.state.Quarantined?
    ensures var after := Step(r, p);
      && after.lastChecked == p.checkedAt && after.total == (if p.healthy then r.total else r.total + 1)
      && after.lastOk == (if p.healthy then p.decidedAt
                          else if RestartsAt(r, p) && p.restartOk then p.doneAt else r.lastOk)
  {
  }

  /** A poll that restarts the subsystem is at least the third failed check since the last success. */
  lemma {:induction false} RestartsNeedThreeFailures(canRestart: bool, polls: seq<Poll>, p: Poll)
    requires RestartsAt(Run(Registered(canRestart), polls), p)
    ensures !p.healthy && SinceSuccess(Registered(canRestart), polls) + 1 >= FAILURE_THRESHOLD
  {
    FailuresAreConsecutive(canRestart, polls);
  }

  /** Quarantine ends by manual control only. */
  lemma {:induction false} QuarantineAbsorbs(r: Record, polls: seq<Poll>)
    requires r.state.Quarantined?
    ensures Run(r, polls) == r
  {
    if polls != [] {
      QuarantineAbsorbs(r, polls[..|polls| - 1]);
    }
  }

  /** Quarantine means five restarts are used up, or the subsystem cannot be restarted at all. */
  lemma {:induction false} QuarantineIsEarned(canRestart: bool, polls: seq<Poll>)
    requires Run(Registered(canRestart), polls).state.Quarantined?
    ensures !canRestart || |RestartTimes(Registered(canRestart), polls)| == QUARANTINE_THRESHOLD
  {
    if polls != [] {
      var front := polls[..|polls| - 1];
      RestartBudget(canRestart, front);
      RestartBudget(canRestart, polls);
      if Run(Registered(canRestart), front).state.Quarantined? {
        QuarantineIsEarned(canRestart, front);
      }
    }
  }

  /* ---------- a subsystem that stays broken ---------- */

  /** Every poll fails and comes at least the poll interval after the one before. */
  predicate Outage(from: real, polls: seq<Poll>)
    decreases polls
  {
    polls == [] ||
    var p := polls[0];
    && !p.healthy
    && from + POLL_INTERVAL_S <= p.checkedAt <= p.decidedAt <= p.restartedAt <= p.doneAt
    && Outage(p.doneAt, polls[1..])
  }

  /** How many polls it takes until the back-off is over, when the last one was done at `now`. */
  function PollsInBackoff(r: Record, now: real): nat {
    var waited := now - r.lastRestart;
    if r.lastRestart <= 0.0 || Delay(r.restarts) as real <= waited + 10.0 then 1
    else if Delay(r.restarts) as real <= waited + 20.0 then 2
    else if Delay(r.restarts) as real <= waited + 30.0 then 3
    else 4
  }

  /** How many polls it takes until the watchdog acts, by restart or quarantine. */
  function PollsToAction(r: Record, now: real): nat {
    var failures := if r.consecutive + 1 >= FAILURE_THRESHOLD then 1 else FAILURE_THRESHOLD - r.consecutive;
    if failures > PollsInBackoff(r, now) || !r.canRestart then failures else PollsInBackoff(r, now)
  }

  /** The polls that can pass after the next restart: three for each further one, four to give up. */
  function PollsAfterRestart(r: Record): nat {
    if !r.canRestart || r.restarts >= QUARANTINE_THRESHOLD then 0
    else 3 * (QUARANTINE_THRESHOLD - 1 - r.restarts) + 4
  }

  /** A bound on the failing polls a subsystem survives. */
  function Patience(r: Record, now: real): nat {
    if r.state.Quarantined? then 0 else PollsToAction(r, now) + PollsAfterRestart(r)
  }

  lemma {:induction false} Delays(n: nat)
    requires n <= QUARANTINE_THRESHOLD
    ensures Delay(n) <= 32 && (n < QUARANTINE_THRESHOLD ==> Delay(n) <= 16)
  {
    assert Pow2(0) == 1 && Pow2(1) == 2;
    assert Pow2(2) == 4 && Pow2(3) == 8;
    assert Pow2(4) == 16 && Pow2(5) == 32;
  }

  lemma {:induction false} OutagePollCosts(r: Record, now: real, p: Poll)
    requires !r.state.Quarantined? && r.restarts <= QUARANTINE_THRESHOLD && r.lastRestart <= now
    requires !p.healthy && now + POLL_INTERVAL_S <= p.checkedAt <= p.decidedAt <= p.restartedAt <= p.doneAt
    ensures var after := Step(r, p);
      && after.restarts <= QUARANTINE_THRESHOLD && after.lastRestart <= p.doneAt
      && Patience(after, p.doneAt) < Patience(r, now)
  {
    Delays(r.restarts);
    if r.restarts < QUARANTINE_THRESHOLD {
      Delays(r.restarts + 1);
    }
  }

  /** Enough failing polls in a row lead to quarantine. */
  lemma {:induction false} OutageEndsInQuarantine(r: Record, from: real, polls: seq<Poll>)
    requires r.restarts <= QUARANTINE_THRESHOLD && r.lastRestart <= from
    requires Outage(from, polls) && |polls| >= Patience(r, from)
    ensures RunForward(r, polls).state.Quarantined?
    decreases polls
  {
    if r.state.Quarantined? {
      ForwardIsRun(r, polls);
      QuarantineAbsorbs(r, polls);
    } else {
      OutagePollCosts(r, from, polls[0]);
      OutageEndsInQuarantine(Step(r, polls[0]), polls[0].doneAt, polls[1..]);
    }
  }

  function RunForward(r: Record, polls: seq<Poll>): Record
    decreases polls
  {
    if polls == [] then r else RunForward(Step(r, polls[0]), polls[1..])
  }

  lemma {:induction false} ForwardIsRun(r: Record, polls: seq<Poll>)
    ensures RunForward(r, polls) == Run(r, polls)
    decreases polls
  {
    if polls != [] {
      ForwardIsRun(Step(r, polls[0]), polls[1..]);
      RunPrepend(r, polls[0], polls[1..]);
      assert polls == [polls[0]] + polls[1..];
    }
  }

  lemma {:induction false} RunPrepend(r: Record, p: Poll, polls: seq<Poll>)
    ensures Run(r, [p] + polls) == Run(Step(r, p), polls)
    decreases polls
  {
    var all := [p] + polls;
    if polls == [] {
      assert all[..0] == [] && all[|all| - 1] == p;
    } else {
      assert all[..|all| - 1] == [p] + polls[..|polls| - 1];
      RunPrepend(r, p, polls[..|polls| - 1]);
    }
  }

  /**
   A subsystem that fails every check is quarantined after at most 19 polls, in whatever state the
   outage finds it and however its restarts turn out; one without a restart function after three.
   */
  lemma {:induction false} BoundedOutage(canRestart: bool, from: real, earlier: seq<Poll>, outage: seq<Poll>)
    requires from > 0.0 && Timed(from, earlier) && Outage(Clock(from, earlier), outage)
    requires |outage| >= if canRestart then 19 else 3
    ensures Run(Run(Registered(canRestart), earlier), outage).state.Quarantined?
  {
    var r, now := Run(Registered(canRestart), earlier), Clock(from, earlier);
    RestartBudget(canRestart, earlier);
    LastRestart(canRestart, from, earlier);
    Delays(r.restarts);
    OutageEndsInQuarantine(r, now, outage);
    ForwardIsRun(r, outage);
  }

  lemma {:induction false} ThreeSteps(r: Record, polls: seq<Poll>)
    requires |polls| >= 3
    ensures RunForward(r, polls) == RunForward(Step(Step(Step(r, polls[0]), polls[1]), polls[2]), polls[3..])
  {
    var one, two := Step(r, polls[0]), Step(Step(r, polls[0]), polls[1]);
    assert RunForward(r, polls) == RunForward(one, polls[1..]);
    assert polls[1..][1..] == polls[2..] && polls[2..][1..] == polls[3..];
    assert RunForward(one, polls[1..]) == RunForward(two, polls[2..]);
    assert RunForward(two, polls[2..]) == RunForward(Step(two, polls[2]), polls[3..]);
  }

  /** Failing checks every ten seconds, with restarts that seem to succeed. */
  function Beats(t: real, n: nat): seq<Poll>
    decreases n
  {
    if n == 0 then [] else [Poll(false, true, t + 10.0, t + 10.0, t + 10.0, t + 10.0)] + Beats(t + 10.0, n - 1)
  }

  lemma {:induction false} ThreeBeats(r: Record, t: real, n: nat)
    requires r.canRestart && !r.state.Quarantined? && r.consecutive == 0 && r.restarts < QUARANTINE_THRESHOLD
    requires t > 0.0 && (r.lastRestart == t || r.lastRestart == 0.0)
    ensures var after := r.(state := Healthy, total := r.total + 3, restarts := r.restarts + 1,
                            lastChecked := t + 30.0, lastOk := t + 30.0, lastRestart := t + 30.0);
      RunForward(r, Beats(t, n + 3)) == RunForward(after, Beats(t + 30.0, n))
  {
    Delays(r.restarts);
    var p, q, s := Beats(t, n + 3), Beats(t + 10.0, n + 2), Beats(t + 20.0, n + 1);
    assert p[1..] == q && q[1..] == s && s[1..] == Beats(t + 30.0, n);
    assert p[1] == q[0] && p[2] == q[1] == s[0] && p[3..] == s[1..];
    ThreeSteps(r, p);
  }

  /** Such polls are an outage, in which every restart there is works. */
  lemma {:induction false} BeatsAreOutage(t: real, n: nat)
    ensures Outage(t, Beats(t, n)) && |Beats(t, n)| == n && forall p <- Beats(t, n) :: p.restartOk
    decreases n
  {
    if n > 0 {
      BeatsAreOutage(t + 10.0, n - 1);
      assert Beats(t, n)[1..] == Beats(t + 10.0, n - 1);
    }
  }

  /** The bound is sharp: an outage of 18 polls need not lead to quarantine. */
  lemma {:induction false} EighteenPollsMayNotDo(t: real)
    requires t > 0.0
    ensures Outage(t, Beats(t, 18)) && |Beats(t, 18)| == 18
    ensures !Run(Registered(true), Beats(t, 18)).state.Quarantined?
  {
    BeatsAreOutage(t, 18);
    ForwardIsRun(Registered(true), Beats(t, 18));
    var r0 := Registered(true);
    ThreeBeats(r0, t, 15);
    var r1 := r0.(state := Healthy, total := 3, restarts := 1,
                  lastChecked := t + 30.0, lastOk := t + 30.0, lastRestart := t + 30.0);
    ThreeBeats(r1, t + 30.0, 12);
    var r2 := r1.(total := 6, restarts := 2, lastChecked := t + 60.0, lastOk := t + 60.0, lastRestart := t + 60.0);
    ThreeBeats(r2, t + 60.0, 9);
    var r3 := r2.(total := 9, restarts := 3, lastChecked := t + 90.0, lastOk := t + 90.0, lastRestart := t + 90.0);
    ThreeBeats(r3, t + 90.0, 6);
    var r4 := r3.(total := 12, restarts := 4, lastChecked := t + 120.0, lastOk := t + 120.0, lastRestart := t + 120.0);
    ThreeBeats(r4, t + 120.0, 3);
    var r5 := r4.(total := 15, restarts := 5, lastChecked := t + 150.0, lastOk := t + 150.0, lastRestart := t + 150.0);
    LastBeats(r5, t + 150.0);
  }

  lemma {:induction false} LastBeats(r: Record, t: real)
    requires r.canRestart && r.state.Healthy? && r.consecutive == 0 && r.restarts == QUARANTINE_THRESHOLD
    requires t > 0.0 && r.lastRestart == t
    ensures !RunForward(r, Beats(t, 3)).state.Quarantined?
  {
    assert Pow2(3) == 8 && Pow2(5) == 32;
    var p, q, s := Beats(t, 3), Beats(t + 10.0, 2), Beats(t + 20.0, 1);
    assert p[1..] == q && q[1..] == s && s[1..] == [];
    assert p[1] == q[0] && p[2] == q[1] == s[0] && p[3..] == [];
    ThreeSteps(r, p);
  }

  /* ---------- quarantine after restarts that worked ---------- */

  /** Failed checks in a row at the end of a run, going on from those before it. */
  function Streak(r: Record, polls: seq<Poll>): nat {
    if polls == [] then r.consecutive
    else if polls[|polls| - 1].healthy then 0
    else 1 + Streak(r, polls[..|polls| - 1])
  }

  /** Poll k is at least the third failed check in a row, and no back-off stands in the way. */
  predicate GivesUpAt(r: Record, polls: seq<Poll>, k: nat)
    requires k < |polls|
  {
    Streak(r, polls[..k + 1]) >= FAILURE_THRESHOLD && (!r.canRestart || !InBackoff(r, polls[k].decidedAt))
  }

  /** Until it is quarantined, a record whose budget is used up only counts failures. */
  lemma {:induction false} NoMoreRestarts(r: Record, polls: seq<Poll>)
    requires !r.state.Quarantined? && (r.canRestart ==> r.restarts >= QUARANTINE_THRESHOLD)
    ensures var after := Run(r, polls);
      && after.canRestart == r.canRestart && after.restarts == r.restarts && after.lastRestart == r.lastRestart
      && (!after.state.Quarantined? ==> after.consecutive == Streak(r, polls))
  {
    if polls != [] {
      NoMoreRestarts(r, polls[..|polls| - 1]);
    }
  }

  lemma {:induction false} LastPollGivesUp(r: Record, polls: seq<Poll>)
    requires polls != [] && !r.state.Quarantined? && (r.canRestart ==> r.restarts >= QUARANTINE_THRESHOLD)
    ensures Run(r, polls).state.Quarantined? <==>
      Run(r, polls[..|polls| - 1]).state.Quarantined? || GivesUpAt(r, polls, |polls| - 1)
  {
    NoMoreRestarts(r, polls[..|polls| - 1]);
    assert polls[..|polls|] == polls;
  }

  /**
   Although quarantine is documented for failed restarts, successful ones use up the budget as well: however
   its five restarts ended and however healthy it has been since, a subsystem is quarantined exactly if at some
   poll three or more checks in a row have failed outside the back-off of the fifth restart.
   */
  lemma {:induction false} SuccessfulRestartsCount(r: Record, polls: seq<Poll>)
    requires !r.state.Quarantined? && (r.canRestart ==> r.restarts >= QUARANTINE_THRESHOLD)
    ensures Run(r, polls).state.Quarantined? <==> exists k :: 0 <= k < |polls| && GivesUpAt(r, polls, k)
  {
    if polls != [] {
      var n, front := |polls| - 1, polls[..|polls| - 1];
      SuccessfulRestartsCount(r, front);
      LastPollGivesUp(r, polls);
      forall k: nat | k < n
        ensures GivesUpAt(r, polls, k) <==> GivesUpAt(r, front, k)
      {
        assert polls[..k + 1] == front[..k + 1];
      }
      if Run(r, front).state.Quarantined? {
        var k: nat :| k < n && GivesUpAt(r, front, k);
        assert GivesUpAt(r, polls, k);
      }
    }
  }

  /** A run in which every restart works and the subsystem is quarantined nevertheless. */
  lemma {:induction false} QuarantinedWithoutFailedRestart(t: real) returns (polls: seq<Poll>)
    requires t > 0.0
    ensures Timed(t, polls) && forall p <- polls :: p.restartOk
    ensures |RestartTimes(Registered(true), polls)| == QUARANTINE_THRESHOLD
    ensures Run(Registered(true), polls).state.Quarantined?
  {
    polls := Beats(t, 19);
    BeatsAreOutage(t, 19);
    OutageIsTimed(t, polls);
    BoundedOutage(true, t, [], polls);
    QuarantineIsEarned(true, polls);
  }

  lemma {:induction false} OutageIsTimed(from: real, polls: seq<Poll>)
    requires Outage(from, polls)
    ensures Timed(from, polls)
    decreases polls
  {
    if polls != [] {
      OutageIsTimed(polls[0].doneAt, polls[1..]);
      TimedPrepend(from, polls[0], polls[1..]);
      assert polls == [polls[0]] + polls[1..];
    }
  }

  lemma {:induction false} TimedPrepend(from: real, p: Poll, polls: seq<Poll>)
    requires from <= p.checkedAt <= p.decidedAt <= p.restartedAt <= p.doneAt && Timed(p.doneAt, polls)
    ensures Timed(from, [p] + polls) && Clock(from, [p] + polls) == Clock(p.doneAt, polls)
  {
    var all := [p] + polls;
    if polls == [] {
      assert all[..|all| - 1] == [] && all[|all| - 1] == p;
      assert Timed(from, []) && Clock(from, []) == from;
    } else {
      assert all[..|all| - 1] == [p] + polls[..|polls| - 1] && all[|all| - 1] == polls[|polls| - 1];
      TimedPrepend(from, p, polls[..|polls| - 1]);
    }
  }

  /* ---------- the classes ---------- */

  class SubsystemRecord {
    const canRestart: bool
    var state: SubsystemState
    var consecutive: nat
    var total: nat
    var restarts: nat
    var lastChecked: real
    var lastOk: real
    var lastRestart: real

    function Model(): Record
      reads this
    {
      Record(canRestart, state, consecutive, total, restarts, lastChecked, lastOk, lastRestart)
    }

    constructor (canRestart: bool)
      ensures Model() == Registered(canRestart)
    {
      this.canRestart, state := canRestart, Unknown;
      consecutive, total, restarts := 0, 0, 0;
      lastChecked, lastOk, lastRestart := 0.0, 0.0, 0.0;
    }

    method TryRestart(p: Poll)
      modifies this
      ensures Model() == AttemptRestart(old(Model()), p)
    {
      if !canRestart {
        state := Quarantined;
        return;
      }
      var sinceLast := p.decidedAt - lastRestart;
      if lastRestart > 0.0 && sinceLast < Delay(restarts) as real {
        return;
      }
      if restarts >= QUARANTINE_THRESHOLD {
        state := Quarantined;
        return;
      }
      state := Restarting;
      lastRestart := p.restartedAt;
      restarts := restarts + 1;
      if p.restartOk {
        consecutive := 0;
        state := Healthy;
        lastOk := p.doneAt;
      }
    }

    method Check(p: Poll)
      modifies this
      ensures Model() == CheckOne(old(Model()), p)
    {
      lastChecked := p.checkedAt;
      if p.healthy {
        state := Healthy;
        consecutive := 0;
        lastOk := p.decidedAt;
        return;
      }
      consecutive := consecutive + 1;
      total := total + 1;
      if consecutive == 1 {
        state := Degraded;
      } else if consecutive >= FAILURE_THRESHOLD {
        TryRestart(p);
      }
    }
  }

  class KernelWatchdog {
    var records: map<string, SubsystemRecord>

    ghost predicate Valid()
      reads this
    {
      forall n <- records, m <- records :: n != m ==> records[n] != records[m]
    }

    constructor ()
      ensures Valid() && records == map[]
    {
      records := map[];
    }

    method Register(name: string, canRestart: bool)
      requires Valid()
      modifies `records
      ensures Valid() && records.Keys == old(records.Keys) + {name}
      ensures fresh(records[name]) && records[name].Model() == Registered(canRestart)
      ensures forall n <- old(records) :: n != name ==> records[n] == old(records)[n]
    {
      var record := new SubsystemRecord(canRestart);
      records := records[name := record];
    }

    /** One poll of every subsystem that is not quarantined; each record takes exactly its own step. */
    method CheckAll(polls: string -> Poll)
      requires Valid()
      modifies records.Values
      ensures Valid()
      ensures forall n <- records :: records[n].Model() == Step(old(records[n].Model()), polls(n))
    {
      var left := records.Keys;
      while left != {}
        invariant left <= records.Keys
        invariant forall n <- records.Keys :: n in left ==> records[n].Model() == old(records[n].Model())
        invariant forall n <- records.Keys ::
          n !in left ==> records[n].Model() == Step(old(records[n].Model()), polls(n))
      {
        var n :| n in left;
        left := left - {n};
        if !records[n].state.Quarantined? {
          records[n].Check(polls(n));
        }
      }
    }

    method Restart(name: string, p: Poll) returns (attempted: bool)
      modifies records.Values
      ensures attempted <==> name in records
      ensures attempted ==> records[name].Model() == ManualRestart(old(records[name].Model()), p)
      ensures forall r <- records.Values :: (attempted ==> r != records[name]) ==> r.Model() == old(r.Model())
    {
      if name !in records {
        return false;
      }
      var r := records[name];
      r.state := Degraded;
      r.restarts := 0;
      r.consecutive := FAILURE_THRESHOLD;
      r.TryRestart(p);
      return true;
    }

    method ResumeOne(name: string) returns (cleared: bool)
      modifies records.Values
      ensures cleared <==> name in records && old(records[name].state.Quarantined?)
      ensures name in records ==> records[name].Model() == Resume(old(records[name].Model()))
      ensures forall r <- records.Values :: (name in records ==> r != records[name]) ==> r.Model() == old(r.Model())
    {
      if name in records && records[name].state.Quarantined? {
        var r := records[name];
        r.state := Unknown;
        r.restarts := 0;
        r.consecutive := 0;
        return true;
      }
      return false;
    }
  }
}
