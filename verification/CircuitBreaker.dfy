/** The circuit breaker: closed, open, or probing for recovery (net/resilience.py). */
module CircuitBreaker {

  datatype CircuitState = Closed | Open | HalfOpen

  datatype Breaker = Breaker(threshold: int, timeout: real, state: CircuitState, failures: int, lastFailure: real)

  /** The locked steps of the breaker; calls that overlap interleave them in any order. */
  datatype Event = Check(now: real) | Success | Failure(now: real) | Reset

  function New(threshold: int, timeout: real): Breaker {
    Breaker(threshold, timeout, Closed, 0, 0.0)
  }

  function Apply(b: Breaker, e: Event): Breaker {
    match e
    case Check(now) => if b.state.Open? && now - b.lastFailure > b.timeout then b.(state := HalfOpen) else b
    case Success => b.(failures := 0, state := Closed)
    case Failure(now) =>
      var failures := b.failures + 1;
      b.(failures := failures, lastFailure := now, state := if failures >= b.threshold then Open else b.state)
    case Reset => b.(failures := 0, state := Closed)
  }

  /** Does a call made now get through to the function? */
  predicate Admits(b: Breaker, now: real) {
    !Apply(b, Check(now)).state.Open?
  }

  function Run(b: Breaker, events: seq<Event>): Breaker {
    if events == [] then b else Apply(Run(b, events[..|events| - 1]), events[|events| - 1])
  }

  /** The state is determined by the count: closed means below the threshold. */
  predicate Consistent(b: Breaker) {
    0 <= b.failures && (b.state.Closed? <==> b.failures < b.threshold)
  }

  lemma {:induction false} ConsistentRun(b: Breaker, events: seq<Event>)
    requires Consistent(b) && b.threshold >= 1
    ensures Consistent(Run(b, events)) && Run(b, events).threshold == b.threshold && Run(b, events).timeout == b.timeout
  {
    if events != [] {
      ConsistentRun(b, events[..|events| - 1]);
    }
  }

  /**
   The breaker is closed iff its count is below the threshold, at every point of every interleaving:
   exactly for positive thresholds.
   */
  lemma {:induction false} ClosedIffBelowThreshold(threshold: int, timeout: real)
    ensures (forall events :: Consistent(Run(New(threshold, timeout), events))) <==> threshold >= 1
  {
    if threshold >= 1 {
      forall events {
        ConsistentRun(New(threshold, timeout), events);
      }
    } else {
      assert !Consistent(Run(New(threshold, timeout), []));
    }
  }

  /* ---------- the breaker read off the events ---------- */

  /** How often the function has failed since the last success or reset. */
  function FailuresSince(events: seq<Event>): nat {
    if events == [] then 0
    else
      var before := FailuresSince(events[..|events| - 1]);
      match events[|events| - 1]
      case Check(_) => before
      case Success => 0
      case Failure(_) => before + 1
      case Reset => 0
  }

  /** When it last failed. */
  function LastFailureAt(events: seq<Event>): real {
    if events == [] then 0.0
    else if events[|events| - 1].Failure? then events[|events| - 1].now
    else LastFailureAt(events[..|events| - 1])
  }

  /** A call has come more than the recovery time after the last report, which was a failure. */
  predicate TriedAgain(events: seq<Event>, timeout: real) {
    && events != [] && events[|events| - 1].Check?
    && var front := events[..|events| - 1];
       TriedAgain(front, timeout) || events[|events| - 1].now - LastFailureAt(front) > timeout
  }

  /**
   Under any interleaving the breaker counts the failures since the last success or reset; it is closed while they
   are fewer than the threshold, and else open until a call comes after the recovery time.
   */
  lemma {:induction false} StateIsReadOff(threshold: int, timeout: real, events: seq<Event>)
    requires threshold >= 1
    ensures Run(New(threshold, timeout), events) == Breaker(threshold, timeout,
      if FailuresSince(events) < threshold then Closed else if TriedAgain(events, timeout) then HalfOpen else Open,
      FailuresSince(events), LastFailureAt(events))
  {
    if events != [] {
      StateIsReadOff(threshold, timeout, events[..|events| - 1]);
    }
  }

  /** Fewer than the threshold of failures, with calls in between. */
  predicate FewFailures(events: seq<Event>, n: nat) {
    events == [] ||
    var front := events[..|events| - 1];
    match events[|events| - 1]
    case Check(_) => FewFailures(front, n)
    case Failure(_) => n > 0 && FewFailures(front, n - 1)
    case _ => false
  }

  lemma {:induction false} FailuresAfterReport(events: seq<Event>, more: seq<Event>, n: nat)
    requires events != [] && (events[|events| - 1].Success? || events[|events| - 1].Reset?) && FewFailures(more, n)
    ensures FailuresSince(events + more) <= n
  {
    var all := events + more;
    if more == [] {
      assert all == events;
    } else {
      assert all[..|all| - 1] == events + more[..|more| - 1];
      FailuresAfterReport(events, more[..|more| - 1], if more[|more| - 1].Failure? then n - 1 else n);
    }
  }

  /** After a success or a reset the breaker is closed and lets calls through, through threshold - 1 more failures. */
  lemma {:induction false} ReportCloses(threshold: int, timeout: real, events: seq<Event>, more: seq<Event>, now: real)
    requires threshold >= 1 && FewFailures(more, threshold - 1)
    requires events != [] && (events[|events| - 1].Success? || events[|events| - 1].Reset?)
    ensures var b := Run(New(threshold, timeout), events + more); b.state == Closed && Admits(b, now)
    ensures var b := Run(New(threshold, timeout), events); b.state == Closed && b.failures == 0
  {
    FailuresAfterReport(events, more, threshold - 1);
    StateIsReadOff(threshold, timeout, events + more);
    StateIsReadOff(threshold, timeout, events);
  }

  /* ---------- calls one after the other ---------- */

  datatype Call = Call(start: real, finish: real, ok: bool)

  /** A whole call: refused, or the function is invoked and its outcome recorded. */
  function Perform(b: Breaker, c: Call): (bool, Breaker) {
    var checked := Apply(b, Check(c.start));
    if checked.state.Open? then (false, checked)
    else (true, Apply(checked, if c.ok then Success else Failure(c.finish)))
  }

  /**
   A call is invoked unless it comes to an open breaker within the recovery time; an invoked one that succeeds
   closes the breaker, and one that fails counts, and opens the breaker at the threshold.
   */
  lemma {:induction false} CallOutcome(b: Breaker, c: Call)
    requires Consistent(b) && b.threshold >= 1
    ensures var (invoked, after) := Perform(b, c);
      && (invoked <==> b.state != Open || c.start - b.lastFailure > b.timeout)
      && (!invoked ==> after == b)
      && (invoked && c.ok ==> after == Breaker(b.threshold, b.timeout, Closed, 0, b.lastFailure))
      && (invoked && !c.ok ==> after == Breaker(b.threshold, b.timeout,
           if b.failures + 1 < b.threshold then Closed else Open, b.failures + 1, c.finish))
  {
  }

  predicate Sequential(from: real, calls: seq<Call>, to: real)
    decreases calls
  {
    if calls == [] then from <= to
    else from <= calls[0].start <= calls[0].finish && Sequential(calls[0].finish, calls[1..], to)
  }

  predicate AllFail(calls: seq<Call>) {
    calls == [] || (!calls[0].ok && AllFail(calls[1..]))
  }

  /** The breaker after the calls. */
  function After(b: Breaker, calls: seq<Call>): Breaker
    decreases calls
  {
    if calls == [] then b else After(Perform(b, calls[0]).1, calls[1..])
  }

  /** How often the function was invoked. */
  function Invocations(b: Breaker, calls: seq<Call>): nat
    decreases calls
  {
    if calls == [] then 0
    else (if Perform(b, calls[0]).0 then 1 else 0) + Invocations(Perform(b, calls[0]).1, calls[1..])
  }

  /** When the function was invoked. */
  function Starts(b: Breaker, calls: seq<Call>): seq<real>
    decreases calls
  {
    if calls == [] then []
    else (if Perform(b, calls[0]).0 then [calls[0].start] else []) + Starts(Perform(b, calls[0]).1, calls[1..])
  }

  /** The first time is more than the gap after `last`, and each further one more than that after the one before. */
  predicate Spaced(last: real, gap: real, times: seq<real>)
    decreases times
  {
    times == [] || (last + gap < times[0] && Spaced(times[0], gap, times[1..]))
  }

  lemma {:induction false} SpacedFromEarlier(earlier: real, last: real, gap: real, times: seq<real>)
    requires earlier <= last && Spaced(last, gap, times)
    ensures Spaced(earlier, gap, times)
  {
  }

  /** While the function keeps failing, an open breaker invokes it only more than the recovery time apart. */
  lemma {:induction false} InvocationsAreSpaced(b: Breaker, calls: seq<Call>, from: real, to: real)
    requires Consistent(b) && b.threshold >= 1 && b.state.Open? && b.lastFailure <= from
    requires Sequential(from, calls, to) && AllFail(calls)
    ensures Spaced(b.lastFailure, b.timeout, Starts(b, calls)) && |Starts(b, calls)| == Invocations(b, calls)
    decreases calls
  {
    if calls != [] {
      var c := calls[0];
      var (invoked, next) := Perform(b, c);
      InvocationsAreSpaced(next, calls[1..], c.finish, to);
      var rest := Starts(next, calls[1..]);
      if invoked {
        SpacedFromEarlier(c.start, c.finish, b.timeout, rest);
        assert ([c.start] + rest)[1..] == rest;
      } else {
        assert [] + rest == rest;
      }
    }
  }

  function Times(n: nat, t: real): real {
    if n == 0 then 0.0 else t + Times(n - 1, t)
  }

  /** An open breaker and a function that keeps failing: invocations are more than the recovery time apart. */
  lemma {:induction false} OpenInvocations(b: Breaker, calls: seq<Call>, from: real, to: real)
    requires Consistent(b) && b.threshold >= 1 && b.state.Open? && b.lastFailure <= from
    requires Sequential(from, calls, to) && AllFail(calls)
    ensures b.lastFailure + Times(Invocations(b, calls), b.timeout) <= to
    ensures Invocations(b, calls) > 0 ==> b.lastFailure + Times(Invocations(b, calls), b.timeout) < to
    decreases calls
  {
    if calls != [] {
      var c := calls[0];
      OpenInvocations(Perform(b, c).1, calls[1..], c.finish, to);
    }
  }

  /**
   From a fresh breaker, a function that always fails is invoked for each of the first `threshold` calls;
   each further invocation comes more than the recovery time after the one before, so that up to a time
   there are at most as many as recovery times have passed since the breaker opened.
   */
  lemma {:induction false} FailingFunction(b: Breaker, calls: seq<Call>, from: real, to: real)
    requires Consistent(b) && b.threshold >= 1 && b.state.Closed?
    requires Sequential(from, calls, to) && AllFail(calls)
    ensures var left := b.threshold - b.failures;
      if |calls| < left then Invocations(b, calls) == |calls| && After(b, calls).state.Closed?
      else
        var tripped := After(b, calls[..left]);
        && Invocations(b, calls) == left + Invocations(tripped, calls[left..])
        && tripped.state.Open? && tripped.lastFailure == calls[left - 1].finish
        && Spaced(tripped.lastFailure, b.timeout, Starts(tripped, calls[left..]))
        && |Starts(tripped, calls[left..])| == Invocations(b, calls) - left
        && tripped.lastFailure + Times(Invocations(b, calls) - left, b.timeout) <= to
    decreases calls
  {
    var left := b.threshold - b.failures;
    if calls != [] {
      var c, rest := calls[0], calls[1..];
      var next := Perform(b, c).1;
      if left == 1 {
        OpenInvocations(next, rest, c.finish, to);
        InvocationsAreSpaced(next, rest, c.finish, to);
        assert calls[..1] == [c] && calls[1..] == rest;
        assert After(next, []) == next;
        assert [c][1..] == [];
      } else {
        FailingFunction(next, rest, c.finish, to);
        if |calls| >= left {
          assert calls[..left][1..] == rest[..left - 1];
          assert calls[left..] == rest[left - 1..];
        }
      }
    }
  }

  /** While open, every call that starts within the recovery time is refused and leaves the breaker as it was. */
  lemma {:induction false} OpenRefuses(b: Breaker, calls: seq<Call>)
    requires b.state.Open? && forall c <- calls :: c.start - b.lastFailure <= b.timeout
    ensures Invocations(b, calls) == 0 && After(b, calls) == b
    decreases calls
  {
    if calls != [] {
      assert calls[0] in calls;
      OpenRefuses(b, calls[1..]);
    }
  }

  /* ---------- overlapping calls ---------- */

  predicate OnlyChecks(events: seq<Event>) {
    forall e <- events :: e.Check?
  }

  lemma {:induction false} HalfOpenUntilReport(b: Breaker, e: Event)
    requires Consistent(b) && b.threshold >= 1 && b.state.HalfOpen?
    ensures Apply(b, e).state.HalfOpen? <==> e.Check?
    ensures e.Check? ==> Apply(b, e) == b
  {
  }

  /**
   A half-open breaker stays so, and lets every further call through, exactly until a call reports or the
   breaker is reset; so it does not stop at one probe.
   */
  lemma {:induction false} ProbesOverlap(b: Breaker, events: seq<Event>, now: real)
    requires Consistent(b) && b.threshold >= 1 && b.state.HalfOpen?
    ensures (forall i | 0 <= i <= |events| :: Run(b, events[..i]).state.HalfOpen?) <==> OnlyChecks(events)
    ensures OnlyChecks(events) ==> Run(b, events) == b && Admits(b, now)
  {
    if OnlyChecks(events) {
      forall i | 0 <= i <= |events|
        ensures Run(b, events[..i]) == b
      {
        ChecksChangeNothing(b, events[..i]);
      }
      assert events[..|events|] == events;
    } else {
      var i := FirstReport(b, events);
    }
  }

  lemma {:induction false} ChecksChangeNothing(b: Breaker, events: seq<Event>)
    requires b.state.HalfOpen? && OnlyChecks(events)
    ensures Run(b, events) == b
  {
    if events != [] {
      ChecksChangeNothing(b, events[..|events| - 1]);
      assert events[|events| - 1] in events;
    }
  }

  lemma {:induction false} FirstReport(b: Breaker, events: seq<Event>) returns (i: nat)
    requires Consistent(b) && b.threshold >= 1 && b.state.HalfOpen? && !OnlyChecks(events)
    ensures i <= |events| && !Run(b, events[..i]).state.HalfOpen?
  {
    var n, front := |events| - 1, events[..|events| - 1];
    if OnlyChecks(front) {
      assert events == front + [events[n]];
      ChecksChangeNothing(b, front);
      HalfOpenUntilReport(b, events[n]);
      i := n + 1;
      assert events[..i] == events;
    } else {
      i := FirstReport(b, front);
      assert events[..i] == front[..i];
    }
  }

  /** Two calls that start after the recovery time of one failure are both invoked. */
  lemma {:induction false} TwoProbes()
    ensures var tripped := Run(New(1, 60.0), [Failure(0.0)]);
      tripped.state.Open? && Admits(tripped, 61.0) && Admits(Apply(tripped, Check(61.0)), 61.0)
  {
    assert [Failure(0.0)][..0] == [];
    assert Run(New(1, 60.0), [Failure(0.0)]) == Apply(New(1, 60.0), Failure(0.0));
  }

  /* ---------- the class ---------- */

  class CircuitBreaker {
    const threshold: int
    const timeout: real
    var state: CircuitState
    var failures: int
    var lastFailure: real

    function Model(): Breaker
      reads this
    {
      Breaker(threshold, timeout, state, failures, lastFailure)
    }

    constructor (threshold: int, timeout: real)
      ensures Model() == New(threshold, timeout)
    {
      this.threshold, this.timeout := threshold, timeout;
      state, failures, lastFailure := Closed, 0, 0.0;
    }

    method CheckState(now: real) returns (current: CircuitState)
      modifies `state
      ensures Model() == Apply(old(Model()), Check(now)) && current == state
    {
      if state.Open? {
        if now - lastFailure > timeout {
          state := HalfOpen;
        }
      }
      return state;
    }

    method OnSuccess()
      modifies `state, `failures
      ensures Model() == Apply(old(Model()), Success)
    {
      failures := 0;
      state := Closed;
    }

    method OnFailure(now: real)
      modifies `state, `failures, `lastFailure
      ensures Model() == Apply(old(Model()), Failure(now))
    {
      failures := failures + 1;
      lastFailure := now;
      if failures >= threshold {
        state := Open;
      }
    }

    method ForceClose()
      modifies `state, `failures
      ensures Model() == Apply(old(Model()), Reset)
    {
      state := Closed;
      failures := 0;
    }

    /** One call that no other call overlaps. */
    method PerformCall(c: Call) returns (invoked: bool)
      modifies `state, `failures, `lastFailure
      ensures (invoked, Model()) == Perform(old(Model()), c)
    {
      var current := CheckState(c.start);
      if current.Open? {
        return false;
      }
      if c.ok {
        OnSuccess();
      } else {
        OnFailure(c.finish);
      }
      return true;
    }
  }
}
