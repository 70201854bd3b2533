/** Token-bucket rate limiting, per client and overall (net/resilience.py). */
module RateLimit {
  import opened Wrappers

  /* ---------- one bucket ---------- */

  datatype Bucket = Bucket(rate: real, capacity: real, tokens: real, last: real) {
    /** Between empty and full, refilling. */
    predicate Sound() {
      0.0 <= tokens <= capacity && 0.0 <= rate
    }
  }

  function Full(rate: real, capacity: real, now: real): Bucket {
    Bucket(rate, capacity, capacity, now)
  }

  function Refill(b: Bucket, now: real): Bucket {
    var tokens := b.tokens + (now - b.last) * b.rate;
    b.(tokens := if tokens < b.capacity then tokens else b.capacity, last := now)
  }

  /** One request for `cost` tokens at time `now`. */
  function Allow(b: Bucket, cost: real, now: real): (bool, Bucket) {
    var refilled := Refill(b, now);
    if refilled.tokens >= cost then (true, refilled.(tokens := refilled.tokens - cost)) else (false, refilled)
  }

  datatype Request = Request(cost: real, time: real)

  /** The bucket after the requests, and the tokens granted to them. */
  function Serve(b: Bucket, requests: seq<Request>): (Bucket, real)
    decreases requests
  {
    if requests == [] then (b, 0.0)
    else
      var (granted, next) := Allow(b, requests[0].cost, requests[0].time);
      var (last, sum) := Serve(next, requests[1..]);
      (last, sum + if granted then requests[0].cost else 0.0)
  }

  /** Costs are not negative and the clock does not run backwards. */
  predicate Ordered(from: real, requests: seq<Request>, to: real)
    decreases requests
  {
    if requests == [] then from <= to
    else from <= requests[0].time && requests[0].cost >= 0.0 && Ordered(requests[0].time, requests[1..], to)
  }

  /** What flows into a bucket of this rate up to time t, on a scale that starts anywhere. */
  function Inflow(rate: real, t: real): real {
    rate * t
  }

  /** Between two times that is the rate times the time passed, and not negative. */
  lemma {:induction false} InflowGrows(rate: real, t: real, t': real)
    requires rate >= 0.0 && t <= t'
    ensures Inflow(rate, t) <= Inflow(rate, t')
    ensures (t' - t) * rate == Inflow(rate, t') - Inflow(rate, t)
  {
  }

  lemma {:induction false} WithinAllowance(granted: real, capacity: real, rate: real, from: real, to: real)
    requires granted <= capacity + Inflow(rate, to) - Inflow(rate, from)
    ensures granted <= capacity + rate * (to - from)
  {
    assert rate * (to - from) == Inflow(rate, to) - Inflow(rate, from);
  }

  /** A bucket stays sound, and what it grants and keeps it had or gained. */
  lemma {:induction false} AllowBounds(b: Bucket, cost: real, now: real)
    requires b.Sound() && b.last <= now && cost >= 0.0
    ensures var (granted, next) := Allow(b, cost, now);
      && (granted <==> cost <= b.capacity && cost <= b.tokens + Inflow(b.rate, now) - Inflow(b.rate, b.last))
      && next.Sound() && next.rate == b.rate && next.capacity == b.capacity && next.last == now
      && next.tokens + (if granted then cost else 0.0) <= b.capacity
      && next.tokens + (if granted then cost else 0.0) <= b.tokens + Inflow(b.rate, now) - Inflow(b.rate, b.last)
      && (next.tokens + (if granted then cost else 0.0) == b.capacity
         || next.tokens + (if granted then cost else 0.0) == b.tokens + Inflow(b.rate, now) - Inflow(b.rate, b.last))
  {
    InflowGrows(b.rate, b.last, now);
  }

  /** What is granted comes from what was there and what flowed in. */
  lemma {:induction false} Conservation(b: Bucket, requests: seq<Request>, to: real)
    requires b.Sound() && Ordered(b.last, requests, to)
    ensures var (last, sum) := Serve(b, requests);
      && last.Sound() && last.rate == b.rate && last.capacity == b.capacity && last.last <= to
      && sum + last.tokens <= b.tokens + Inflow(b.rate, to) - Inflow(b.rate, b.last)
    decreases requests
  {
    if requests == [] {
      InflowGrows(b.rate, b.last, to);
    } else {
      var r := requests[0];
      AllowBounds(b, r.cost, r.time);
      var (_, next) := Allow(b, r.cost, r.time);
      Conservation(next, requests[1..], to);
    }
  }

  lemma {:induction false} OrderedBounds(from: real, requests: seq<Request>, to: real)
    requires Ordered(from, requests, to)
    ensures from <= to
    decreases requests
  {
    if requests != [] {
      OrderedBounds(requests[0].time, requests[1..], to);
    }
  }

  /**
   Over every stretch of every run: the tokens granted to requests made between two times never exceed
   one full bucket plus what flows in between those times, however the bucket stood before.
   */
  lemma {:induction false} WindowBound(b: Bucket, earlier: seq<Request>, window: seq<Request>, from: real, to: real)
    requires b.Sound() && Ordered(b.last, earlier, from) && Ordered(from, window, to)
    ensures var before := Serve(b, earlier).0;
      && before.Sound() && before.rate == b.rate && before.capacity == b.capacity
      && Serve(before, window).1 <= b.capacity + Inflow(b.rate, to) - Inflow(b.rate, from)
  {
    Conservation(b, earlier, from);
    InflowBound(Serve(b, earlier).0, window, from, to);
  }

  lemma {:induction false} InflowBound(b: Bucket, window: seq<Request>, from: real, to: real)
    requires b.Sound() && b.last <= from && Ordered(from, window, to)
    ensures Serve(b, window).1 <= b.capacity + Inflow(b.rate, to) - Inflow(b.rate, from)
  {
    OrderedBounds(from, window, to);
    if window == [] {
      InflowGrows(b.rate, from, to);
    } else {
      var r := window[0];
      AllowBounds(b, r.cost, r.time);
      Conservation(Allow(b, r.cost, r.time).1, window[1..], to);
      InflowGrows(b.rate, from, r.time);
    }
  }

  /** n requests for one token each, all at one time. */
  function Burst(n: nat, now: real): seq<Request> {
    if n == 0 then [] else [Request(1.0, now)] + Burst(n - 1, now)
  }

  /** A burst is granted whole as long as the bucket holds it: a full bucket grants its capacity at once. */
  lemma {:induction false} BurstGranted(b: Bucket, n: nat, now: real)
    requires b.Sound() && b.last == now && n as real <= b.tokens
    ensures Serve(b, Burst(n, now)) == (b.(tokens := b.tokens - n as real), n as real)
    decreases n
  {
    if n > 0 {
      var next := b.(tokens := b.tokens - 1.0);
      assert Refill(b, now) == b && Allow(b, 1.0, now) == (true, next);
      BurstGranted(next, n - 1, now);
      assert Burst(n, now)[1..] == Burst(n - 1, now);
    }
  }

  /* ---------- the limiter ---------- */

  datatype Limiter = Limiter(whole: Bucket, perIp: map<string, Bucket>, ipRate: real, rejected: map<string, nat>)

  /**
   What is done under one lock, with the time at which the clock is read there. A call enters through the global
   bucket, gets its address a bucket, and spends from it; other calls and changed limits may come in between.
   */
  datatype Step =
    | Enter(ip: string, now: real)
    | Settle(ip: string, now: real)
    | Spend(ip: string, now: real)
    | SetLimit(ip: string, now: real, rps: real)

  /** The bucket an address has, or the one it would get. */
  function BucketOf(l: Limiter, ip: string, now: real): Bucket {
    if ip in l.perIp then l.perIp[ip] else Full(l.ipRate, l.ipRate * 3.0, now)
  }

  /** Whether the call may go on after the step, and what the step leaves; refusals by an address are counted. */
  function Act(l: Limiter, step: Step): (bool, Limiter)
    requires step.Spend? ==> step.ip in l.perIp
  {
    match step
    case Enter(_, now) =>
      var (granted, whole) := Allow(l.whole, 1.0, now);
      (granted, l.(whole := whole))
    case Settle(ip, now) =>
      (true, l.(perIp := l.perIp[ip := BucketOf(l, ip, now)]))
    case Spend(ip, now) =>
      var (granted, next) := Allow(l.perIp[ip], 1.0, now);
      var before := if ip in l.rejected then l.rejected[ip] else 0;
      var rejected := if granted then l.rejected else l.rejected[ip := before + 1];
      (granted, l.(perIp := l.perIp[ip := next], rejected := rejected))
    case SetLimit(ip, now, rps) =>
      (true, l.(perIp := l.perIp[ip := Full(rps, rps * 3.0, now)]))
  }

  /** The limiter while calls are under way: those waiting are past the global bucket. */
  datatype System = System(limiter: Limiter, waiting: multiset<string>)

  predicate Enabled(s: System, step: Step) {
    && (step.Settle? || step.Spend? ==> step.ip in s.waiting)
    && (step.Spend? ==> step.ip in s.limiter.perIp)
  }

  function After(s: System, step: Step): System
    requires Enabled(s, step)
  {
    var (granted, l) := Act(s.limiter, step);
    System(l,
      if step.Enter? && granted then s.waiting + multiset{step.ip}
      else if step.Spend? then s.waiting - multiset{step.ip}
      else s.waiting)
  }

  /** A run of steps of any number of calls, interleaved in any way. */
  predicate Allowed(s: System, steps: seq<Step>)
    decreases steps
  {
    steps == [] || (Enabled(s, steps[0]) && Allowed(After(s, steps[0]), steps[1..]))
  }

  function Run(s: System, steps: seq<Step>): System
    requires Allowed(s, steps)
    decreases steps
  {
    if steps == [] then s else Run(After(s, steps[0]), steps[1..])
  }

  /** Of everyone, or of one address. */
  predicate Concerns(step: Step, who: Option<string>) {
    who.None? || who.value == step.ip
  }

  function Waiting(s: System, who: Option<string>): nat {
    if who.None? then |s.waiting| else s.waiting[who.value]
  }

  /** How many calls are admitted in the run. */
  function Admitted(s: System, steps: seq<Step>, who: Option<string>): nat
    requires Allowed(s, steps)
    decreases steps
  {
    if steps == [] then 0
    else
      var one := steps[0].Spend? && Concerns(steps[0], who) && Act(s.limiter, steps[0]).0;
      (if one then 1 else 0) + Admitted(After(s, steps[0]), steps[1..], who)
  }

  /** The clock does not run backwards within a run from `from` to `to`. */
  predicate Timed(from: real, steps: seq<Step>, to: real)
    decreases steps
  {
    if steps == [] then from <= to else from <= steps[0].now && Timed(steps[0].now, steps[1..], to)
  }

  lemma {:induction false} TimedBounds(from: real, steps: seq<Step>, to: real)
    requires Timed(from, steps, to)
    ensures from <= to
    decreases steps
  {
    if steps != [] {
      TimedBounds(steps[0].now, steps[1..], to);
    }
  }

  predicate NoLimitSetFor(ip: string, steps: seq<Step>) {
    steps == [] || ((steps[0].SetLimit? ==> steps[0].ip != ip) && NoLimitSetFor(ip, steps[1..]))
  }

  /* ---------- every point of a run ---------- */

  /** Every bucket is sound, and none has been charged later than now. A limit set below zero makes no sound bucket. */
  predicate Settled(l: Limiter, now: real) {
    && l.whole.Sound() && l.whole.last <= now
    && forall ip <- l.perIp :: l.perIp[ip].last <= now && (l.perIp[ip].rate >= 0.0 ==> l.perIp[ip].Sound())
  }

  lemma {:induction false} StepKeepsSettled(s: System, step: Step)
    requires Enabled(s, step) && Settled(s.limiter, step.now)
    ensures Settled(After(s, step).limiter, step.now)
    ensures var l := After(s, step).limiter;
      && l.ipRate == s.limiter.ipRate
      && l.whole.rate == s.limiter.whole.rate && l.whole.capacity == s.limiter.whole.capacity
  {
    match step
    case Enter(_, now) => AllowBounds(s.limiter.whole, 1.0, now);
    case Spend(ip, now) =>
      var b := s.limiter.perIp[ip];
      if b.rate >= 0.0 {
        AllowBounds(b, 1.0, now);
      }
    case _ =>
  }

  lemma {:induction false} LaterIsSettled(l: Limiter, now: real, later: real)
    requires Settled(l, now) && now <= later
    ensures Settled(l, later)
  {
  }

  /** At every point of every run the buckets are sound and the global one has its limits. */
  lemma {:induction false} RunKeepsSettled(s: System, steps: seq<Step>, from: real, to: real)
    requires Settled(s.limiter, from) && Timed(from, steps, to) && Allowed(s, steps)
    ensures var l := Run(s, steps).limiter;
      && Settled(l, to) && l.ipRate == s.limiter.ipRate
      && l.whole.rate == s.limiter.whole.rate && l.whole.capacity == s.limiter.whole.capacity
    decreases steps
  {
    if steps == [] {
      LaterIsSettled(s.limiter, from, to);
    } else {
      LaterIsSettled(s.limiter, from, steps[0].now);
      StepKeepsSettled(s, steps[0]);
      RunKeepsSettled(After(s, steps[0]), steps[1..], steps[0].now, to);
    }
  }

  /** An address has, or would get, a bucket with the limits of the others until its limit is set anew. */
  predicate HasCommonLimit(l: Limiter, ip: string) {
    ip in l.perIp ==> l.perIp[ip].rate == l.ipRate && l.perIp[ip].capacity == l.ipRate * 3.0
  }

  lemma {:induction false} RunKeepsCommonLimit(s: System, steps: seq<Step>, ip: string)
    requires Allowed(s, steps) && NoLimitSetFor(ip, steps) && HasCommonLimit(s.limiter, ip)
    ensures HasCommonLimit(Run(s, steps).limiter, ip)
    decreases steps
  {
    if steps != [] {
      RunKeepsCommonLimit(After(s, steps[0]), steps[1..], ip);
    }
  }

  /* ---------- bounds on what is admitted ---------- */

  /** What one step admits and leaves waiting was waiting before, or is paid for by the global bucket. */
  lemma {:induction false} StepIsPaid(s: System, step: Step, who: Option<string>)
    requires Enabled(s, step) && s.limiter.whole.Sound() && s.limiter.whole.last <= step.now
    ensures var before, after := s.limiter.whole, After(s, step).limiter.whole;
      var one := if step.Spend? && Concerns(step, who) && Act(s.limiter, step).0 then 1 else 0;
      && after.Sound() && after.rate == before.rate && after.capacity == before.capacity && after.last <= step.now
      && one as real + Waiting(After(s, step), who) as real + after.tokens - Inflow(after.rate, after.last)
         <= Waiting(s, who) as real + before.tokens - Inflow(before.rate, before.last)
      && if step.Enter? then
           after.last == step.now
           && Waiting(After(s, step), who) as real + after.tokens <= Waiting(s, who) as real + before.capacity
         else after == before
  {
    if step.Enter? {
      AllowBounds(s.limiter.whole, 1.0, step.now);
    }
  }

  /** Admitted calls were waiting or are paid for by the global bucket, and so are those left waiting. */
  lemma {:induction false} PaidGlobally(s: System, steps: seq<Step>, from: real, to: real, who: Option<string>)
    requires s.limiter.whole.Sound() && s.limiter.whole.last <= from && Timed(from, steps, to) && Allowed(s, steps)
    ensures var whole := s.limiter.whole;
      Admitted(s, steps, who) as real + Waiting(Run(s, steps), who) as real
      <= Waiting(s, who) as real + whole.tokens + Inflow(whole.rate, to) - Inflow(whole.rate, whole.last)
    decreases steps
  {
    if steps == [] {
      InflowGrows(s.limiter.whole.rate, s.limiter.whole.last, to);
    } else {
      StepIsPaid(s, steps[0], who);
      PaidGlobally(After(s, steps[0]), steps[1..], steps[0].now, to, who);
    }
  }

  /**
   In any stretch of a run the calls admitted or left waiting are at most those waiting when it began, one full
   global bucket, and what flows in.
   */
  lemma {:induction false} GlobalBound(s: System, steps: seq<Step>, from: real, to: real, who: Option<string>)
    requires s.limiter.whole.Sound() && s.limiter.whole.last <= from && Timed(from, steps, to) && Allowed(s, steps)
    ensures var whole := s.limiter.whole;
      Admitted(s, steps, who) as real + Waiting(Run(s, steps), who) as real
      <= Waiting(s, who) as real + whole.capacity + Inflow(whole.rate, to) - Inflow(whole.rate, from)
    decreases steps
  {
    var whole := s.limiter.whole;
    TimedBounds(from, steps, to);
    if steps == [] {
      InflowGrows(whole.rate, from, to);
    } else {
      StepIsPaid(s, steps[0], who);
      InflowGrows(whole.rate, from, steps[0].now);
      if steps[0].Enter? {
        PaidGlobally(After(s, steps[0]), steps[1..], steps[0].now, to, who);
      } else {
        GlobalBound(After(s, steps[0]), steps[1..], steps[0].now, to, who);
      }
    }
  }

  /** Admitted calls of an address are paid for by its bucket. */
  lemma {:induction false} PaidByAddress(s: System, steps: seq<Step>, from: real, to: real, ip: string)
    requires ip in s.limiter.perIp && s.limiter.perIp[ip].Sound() && s.limiter.perIp[ip].last <= from
    requires Timed(from, steps, to) && Allowed(s, steps) && NoLimitSetFor(ip, steps)
    ensures var b := s.limiter.perIp[ip];
      Admitted(s, steps, Some(ip)) as real <= b.tokens + Inflow(b.rate, to) - Inflow(b.rate, b.last)
    decreases steps
  {
    var b := s.limiter.perIp[ip];
    if steps == [] {
      InflowGrows(b.rate, b.last, to);
    } else {
      if steps[0].Spend? && steps[0].ip == ip {
        AllowBounds(b, 1.0, steps[0].now);
      }
      PaidByAddress(After(s, steps[0]), steps[1..], steps[0].now, to, ip);
    }
  }

  /**
   In any stretch of a run in which its limit is not set anew, an address gets at most one full bucket
   plus the inflow, whether or not it already had a bucket, and however the calls are interleaved.
   */
  lemma {:induction false} AddressBound(s: System, steps: seq<Step>, from: real, to: real, ip: string)
    requires BucketOf(s.limiter, ip, from).Sound() && BucketOf(s.limiter, ip, from).last <= from
    requires Timed(from, steps, to) && Allowed(s, steps) && NoLimitSetFor(ip, steps)
    ensures var b := BucketOf(s.limiter, ip, from);
      Admitted(s, steps, Some(ip)) as real <= b.capacity + Inflow(b.rate, to) - Inflow(b.rate, from)
    decreases steps
  {
    var b := BucketOf(s.limiter, ip, from);
    TimedBounds(from, steps, to);
    if steps == [] {
      InflowGrows(b.rate, from, to);
    } else {
      var now := steps[0].now;
      InflowGrows(b.rate, from, now);
      if steps[0].Spend? && steps[0].ip == ip {
        AllowBounds(b, 1.0, now);
        PaidByAddress(After(s, steps[0]), steps[1..], now, to, ip);
      } else {
        AddressBound(After(s, steps[0]), steps[1..], now, to, ip);
      }
    }
  }

  /** A limiter for g requests a second overall and r per address, as it starts. */
  function Fresh(g: real, r: real, now: real): Limiter {
    Limiter(Full(g, g * 2.0, now), map[], r, map[])
  }

  /** An address without a bucket gets a full one of 3r tokens, and one whose limit is set a full one of 3 * rps. */
  lemma {:induction false} BucketsStartFull(l: Limiter, ip: string, now: real, rps: real)
    ensures var settled, set' := Act(l, Settle(ip, now)).1, Act(l, SetLimit(ip, now, rps)).1;
      && ip in settled.perIp && ip in set'.perIp && set'.perIp[ip] == Bucket(rps, 3.0 * rps, 3.0 * rps, now)
      && settled.perIp[ip] ==
         (if ip in l.perIp then l.perIp[ip] else Bucket(l.ipRate, 3.0 * l.ipRate, 3.0 * l.ipRate, now))
      && settled.perIp - {ip} == l.perIp - {ip} == set'.perIp - {ip}
      && settled.whole == l.whole == set'.whole && settled.rejected == l.rejected == set'.rejected
  {
    assert rps * 3.0 == 3.0 * rps && l.ipRate * 3.0 == 3.0 * l.ipRate;
  }

  /** Spending charges the address's bucket and nothing else, and counts a refusal. */
  lemma {:induction false} SpendOutcome(l: Limiter, ip: string, now: real)
    requires ip in l.perIp && l.perIp[ip].Sound() && l.perIp[ip].last <= now
    ensures var b, (granted, after) := l.perIp[ip], Act(l, Spend(ip, now));
      && (granted <==> 1.0 <= b.capacity && 1.0 <= b.tokens + Inflow(b.rate, now) - Inflow(b.rate, b.last))
      && after.whole == l.whole && after.ipRate == l.ipRate && after.perIp - {ip} == l.perIp - {ip}
      && after.rejected == (if granted then l.rejected
           else l.rejected[ip := if ip in l.rejected then l.rejected[ip] + 1 else 1])
  {
    AllowBounds(l.perIp[ip], 1.0, now);
  }

  /** A limiter grants as many calls at its start as there are whole tokens in 2g, and an address as many as in 3r. */
  lemma {:induction false} FirstBurst(g: real, r: real, ip: string, now: real, n: nat)
    requires g >= 0.0 && r >= 0.0
    ensures Serve(Fresh(g, r, now).whole, Burst(n, now)).1 == n as real <==> n as real <= 2.0 * g
    ensures Serve(BucketOf(Fresh(g, r, now), ip, now), Burst(n, now)).1 == n as real <==> n as real <= 3.0 * r
  {
    FullBurst(Fresh(g, r, now).whole, n, now);
    FullBurst(BucketOf(Fresh(g, r, now), ip, now), n, now);
  }

  lemma {:induction false} FullBurst(b: Bucket, n: nat, now: real)
    requires b.Sound() && b.last == now && b.tokens == b.capacity
    ensures Serve(b, Burst(n, now)).1 == n as real <==> n as real <= b.capacity
  {
    BurstIsOrdered(n, now);
    if n as real <= b.capacity {
      BurstGranted(b, n, now);
    } else {
      Conservation(b, Burst(n, now), now);
    }
  }

  lemma {:induction false} BurstIsOrdered(n: nat, now: real)
    ensures Ordered(now, Burst(n, now), now)
    decreases n
  {
    if n > 0 {
      BurstIsOrdered(n - 1, now);
      assert Burst(n, now)[1..] == Burst(n - 1, now);
    }
  }

  /**
   The documented limits over any stretch of length T of any run of a limiter, however its calls are interleaved:
   3r + r*T for an address whose limit was not set, and 2g + g*T overall beyond the calls already waiting.
   */
  lemma {:induction false} LimitsHold(
      g: real, r: real, earlier: seq<Step>, stretch: seq<Step>, start: real, from: real, to: real, ip: string)
    requires g >= 0.0 && r >= 0.0 && Timed(start, earlier, from) && Timed(from, stretch, to)
    requires Allowed(System(Fresh(g, r, start), multiset{}), earlier)
    requires Allowed(Run(System(Fresh(g, r, start), multiset{}), earlier), stretch)
    ensures var s := Run(System(Fresh(g, r, start), multiset{}), earlier);
      && Admitted(s, stretch, None) as real <= |s.waiting| as real + (g * 2.0 + g * (to - from))
      && (NoLimitSetFor(ip, earlier) && NoLimitSetFor(ip, stretch) ==>
          Admitted(s, stretch, Some(ip)) as real <= r * 3.0 + r * (to - from))
  {
    var begin := System(Fresh(g, r, start), multiset{});
    TimedBounds(start, earlier, from);
    RunKeepsSettled(begin, earlier, start, from);
    var s := Run(begin, earlier);
    GlobalBound(s, stretch, from, to, None);
    WithinAllowance(Admitted(s, stretch, None) as real - |s.waiting| as real, g * 2.0, g, from, to);
    if NoLimitSetFor(ip, earlier) && NoLimitSetFor(ip, stretch) {
      RunKeepsCommonLimit(begin, earlier, ip);
      AddressBound(s, stretch, from, to, ip);
      WithinAllowance(Admitted(s, stretch, Some(ip)) as real, r * 3.0, r, from, to);
    }
  }

  /**
   The calls waiting do count: a global bucket of one token lets in a call, refills and lets in another, and then
   both are admitted at one time.
   */
  lemma {:induction false} WaitingCallsAreAdmitted()
    ensures var begin := System(Fresh(0.5, 1.0, 0.0), multiset{});
      var earlier := [Enter("a", 0.0), Settle("a", 0.0), Enter("a", 2.0)];
      var stretch := [Spend("a", 2.0), Spend("a", 2.0)];
      && Timed(0.0, earlier, 2.0) && Timed(2.0, stretch, 2.0)
      && Allowed(begin, earlier) && Allowed(Run(begin, earlier), stretch)
      && Admitted(Run(begin, earlier), stretch, None) == 2
  {
    var empty, whole, third := Bucket(0.5, 1.0, 0.0, 0.0), Bucket(0.5, 1.0, 0.0, 2.0), Bucket(1.0, 3.0, 2.0, 2.0);
    var entered := System(Limiter(empty, map[], 1.0, map[]), multiset{"a"});
    var settled := System(Limiter(empty, map["a" := Full(1.0, 3.0, 0.0)], 1.0, map[]), multiset{"a"});
    var both := System(Limiter(whole, map["a" := Full(1.0, 3.0, 0.0)], 1.0, map[]), multiset{"a", "a"});
    assert After(System(Fresh(0.5, 1.0, 0.0), multiset{}), Enter("a", 0.0)) == entered;
    assert After(entered, Settle("a", 0.0)) == settled;
    assert After(settled, Enter("a", 2.0)) == both;
    var one := System(Limiter(whole, map["a" := third], 1.0, map[]), multiset{"a"});
    assert After(both, Spend("a", 2.0)) == one;
  }

  /* ---------- when the overall limit holds ---------- */

  /** From the time `from` on, every run admits at most one full global bucket plus what flows in. */
  ghost predicate KeepsOverallLimit(s: System, from: real) {
    forall steps, to | Timed(from, steps, to) && Allowed(s, steps) ::
      var whole := s.limiter.whole;
      Admitted(s, steps, None) as real <= whole.capacity + Inflow(whole.rate, to) - Inflow(whole.rate, from)
  }

  /** All the waiting calls can be admitted at once, each after its address has been given a new limit. */
  lemma {:induction false} AdmitWaiting(s: System, now: real) returns (steps: seq<Step>)
    ensures Timed(now, steps, now) && Allowed(s, steps) && Admitted(s, steps, None) == |s.waiting|
    decreases |s.waiting|
  {
    steps := [];
    if s.waiting != multiset{} {
      var ip :| ip in s.waiting;
      var given := After(s, SetLimit(ip, now, 1.0));
      var rest := AdmitWaiting(After(given, Spend(ip, now)), now);
      assert Act(given.limiter, Spend(ip, now)).0;
      steps := PrependStep(given, Spend(ip, now), rest, now, now);
      steps := PrependStep(s, SetLimit(ip, now, 1.0), steps, now, now);
    }
  }

  lemma {:induction false} PrependStep(s: System, step: Step, rest: seq<Step>, from: real, to: real)
    returns (steps: seq<Step>)
    requires Enabled(s, step) && from <= step.now && Timed(step.now, rest, to) && Allowed(After(s, step), rest)
    ensures Timed(from, steps, to) && Allowed(s, steps)
    ensures Admitted(s, steps, None)
         == Admitted(After(s, step), rest, None) + if step.Spend? && Act(s.limiter, step).0 then 1 else 0
  {
    steps := [step] + rest;
    assert steps[1..] == rest;
  }

  /** Where the bucket holds a token, a call can enter, and joins those waiting. */
  lemma {:induction false} OneEnters(s: System, now: real)
    requires s.limiter.whole.Sound() && s.limiter.whole.last <= now && Refill(s.limiter.whole, now).tokens >= 1.0
    ensures var refilled, after := Refill(s.limiter.whole, now), After(s, Enter("a", now));
      && after.limiter.whole == refilled.(tokens := refilled.tokens - 1.0)
      && after.limiter.whole.Sound() && |after.waiting| == |s.waiting| + 1
      && Refill(after.limiter.whole, now) == after.limiter.whole
  {
    AllowBounds(s.limiter.whole, 1.0, now);
  }

  /** As many further calls as the bucket holds tokens can enter, before all that wait are admitted. */
  lemma {:induction false} DrainAndAdmit(s: System, n: nat, now: real) returns (steps: seq<Step>)
    requires s.limiter.whole.Sound() && s.limiter.whole.last <= now && Refill(s.limiter.whole, now).tokens >= n as real
    ensures Timed(now, steps, now) && Allowed(s, steps) && Admitted(s, steps, None) == |s.waiting| + n
    decreases n
  {
    if n == 0 {
      steps := AdmitWaiting(s, now);
    } else {
      OneEnters(s, now);
      steps := DrainAndAdmit(After(s, Enter("a", now)), n - 1, now);
      steps := PrependStep(s, Enter("a", now), steps, now, now);
    }
  }

  /** Once drained, the bucket may be left to fill until it lets in one more call. */
  lemma {:induction false} DrainWaitAndAdmit(s: System, n: nat, now: real, later: real) returns (steps: seq<Step>)
    requires var whole := s.limiter.whole;
      && whole.Sound() && whole.last <= now <= later && whole.capacity >= 1.0
      && Refill(whole, now).tokens >= n as real
      && Refill(whole, now).tokens - n as real + Inflow(whole.rate, later) - Inflow(whole.rate, now) >= 1.0
    ensures Timed(now, steps, later) && Allowed(s, steps) && Admitted(s, steps, None) == |s.waiting| + n + 1
    decreases n
  {
    if n == 0 {
      RefillLevel(s.limiter.whole, now);
      RefillLevel(s.limiter.whole, later);
      steps := DrainAndAdmit(s, 1, later);
      TimedEarlier(now, later, steps, later);
    } else {
      OneEnters(s, now);
      steps := DrainWaitAndAdmit(After(s, Enter("a", now)), n - 1, now, later);
      steps := PrependStep(s, Enter("a", now), steps, now, later);
    }
  }

  lemma {:induction false} TimedEarlier(earlier: real, from: real, steps: seq<Step>, to: real)
    requires earlier <= from && Timed(from, steps, to)
    ensures Timed(earlier, steps, to)
  {
  }

  /** Where waiting calls and tokens together exceed the bucket, some run admits more than the limit. */
  lemma {:induction false} LimitIsBroken(s: System, from: real) returns (steps: seq<Step>, to: real)
    requires s.limiter.whole.Sound() && s.limiter.whole.last <= from
    requires s.limiter.whole.rate > 0.0 || s.limiter.whole.capacity == 0.0
    requires |s.waiting| as real + Refill(s.limiter.whole, from).tokens > s.limiter.whole.capacity
    ensures Timed(from, steps, to) && Allowed(s, steps)
    ensures var whole := s.limiter.whole;
      Admitted(s, steps, None) as real > whole.capacity + Inflow(whole.rate, to) - Inflow(whole.rate, from)
  {
    var whole, tokens := s.limiter.whole, Refill(s.limiter.whole, from).tokens;
    RefillLevel(whole, from);
    var n := WholeTokens(tokens);
    if (|s.waiting| + n) as real > whole.capacity {
      to := from;
      steps := DrainAndAdmit(s, n, from);
    } else {
      var missing := 1.0 - (tokens - n as real);
      to := from + missing / whole.rate;
      TimeToFill(whole.rate, missing, from);
      steps := DrainWaitAndAdmit(s, n, from, to);
    }
  }

  function WholeTokens(tokens: real): (n: nat)
    requires tokens >= 0.0
    ensures n as real <= tokens < n as real + 1.0
  {
    tokens.Floor
  }

  lemma {:induction false} TimeToFill(rate: real, missing: real, from: real)
    requires rate > 0.0 && missing >= 0.0
    ensures var to := from + missing / rate;
      from <= to && Inflow(rate, to) - Inflow(rate, from) == missing
  {
    var wait := missing / rate;
    assert wait * rate == missing;
    assert rate * (from + wait) == rate * from + rate * wait;
  }

  /** Where they fit, what waits and what the bucket holds is no more than a full bucket. */
  lemma {:induction false} LimitIsKept(s: System, steps: seq<Step>, from: real, to: real)
    requires s.limiter.whole.Sound() && s.limiter.whole.last <= from && Timed(from, steps, to) && Allowed(s, steps)
    requires |s.waiting| as real + Refill(s.limiter.whole, from).tokens <= s.limiter.whole.capacity
    ensures var whole := s.limiter.whole;
      Admitted(s, steps, None) as real <= whole.capacity + Inflow(whole.rate, to) - Inflow(whole.rate, from)
  {
    RefillLevel(s.limiter.whole, from);
    if Refill(s.limiter.whole, from).tokens == s.limiter.whole.capacity {
      GlobalBound(s, steps, from, to, None);
      assert |s.waiting| == 0;
    } else {
      PaidGlobally(s, steps, from, to, None);
    }
  }

  lemma {:induction false} RefillLevel(b: Bucket, now: real)
    requires b.Sound() && b.last <= now
    ensures var level := b.tokens + Inflow(b.rate, now) - Inflow(b.rate, b.last);
      && Refill(b, now).tokens == (if level < b.capacity then level else b.capacity)
      && 0.0 <= b.tokens <= level
  {
    InflowGrows(b.rate, b.last, now);
  }

  /**
   From any point on, the overall limit holds for every run exactly if the calls under way and the tokens in the
   global bucket fit in it together.
   */
  lemma {:induction false} OverallLimitHoldsIff(s: System, from: real)
    requires s.limiter.whole.Sound() && s.limiter.whole.last <= from
    requires s.limiter.whole.rate > 0.0 || s.limiter.whole.capacity == 0.0
    ensures KeepsOverallLimit(s, from)
      <==> |s.waiting| as real + Refill(s.limiter.whole, from).tokens <= s.limiter.whole.capacity
  {
    if |s.waiting| as real + Refill(s.limiter.whole, from).tokens <= s.limiter.whole.capacity {
      forall steps, to | Timed(from, steps, to) && Allowed(s, steps)
        ensures var whole := s.limiter.whole;
          Admitted(s, steps, None) as real <= whole.capacity + Inflow(whole.rate, to) - Inflow(whole.rate, from)
      {
        LimitIsKept(s, steps, from, to);
      }
    } else {
      var steps, to := LimitIsBroken(s, from);
    }
  }

  /* ---------- the classes ---------- */

  class TokenBucket {
    const rate: real
    const capacity: real
    var tokens: real
    var last: real

    function Model(): Bucket
      reads this
    {
      Bucket(rate, capacity, tokens, last)
    }

    constructor (rate: real, capacity: real, now: real)
      ensures Model() == Full(rate, capacity, now)
    {
      this.rate, this.capacity := rate, capacity;
      tokens, last := capacity, now;
    }

    method Take(cost: real, now: real) returns (granted: bool)
      modifies this
      ensures (granted, Model()) == Allow(old(Model()), cost, now)
    {
      var refill := (now - last) * rate;
      tokens := if tokens + refill < capacity then tokens + refill else capacity;
      last := now;
      assert Model() == Refill(old(Model()), now);
      granted := tokens >= cost;
      if granted {
        tokens := tokens - cost;
      }
    }
  }

  class RateLimiter {
    const whole: TokenBucket
    const ipRate: real
    var perIp: map<string, TokenBucket>
    var rejected: map<string, nat>

    /** No two addresses share a bucket, and none uses the global one. */
    ghost predicate Valid()
      reads this
    {
      && (forall ip <- perIp :: perIp[ip] != whole)
      && forall ip <- perIp, other <- perIp :: ip != other ==> perIp[ip] != perIp[other]
    }

    ghost function Model(): Limiter
      reads this, whole, perIp.Values
    {
      Limiter(whole.Model(), map ip | ip in perIp :: perIp[ip].Model(), ipRate, rejected)
    }

    constructor (g: real, r: real, now: real)
      ensures Valid() && Model() == Fresh(g, r, now) && fresh(whole)
    {
      whole := new TokenBucket(g, g * 2.0, now);
      ipRate, perIp, rejected := r, map[], map[];
    }

    /** A call's first part, under the global bucket's lock. */
    method EnterCall(ip: string, now: real) returns (granted: bool)
      requires Valid()
      modifies whole
      ensures Valid() && (granted, Model()) == Act(old(Model()), Enter(ip, now))
    {
      granted := whole.Take(1.0, now);
      assert Model().perIp == old(Model()).perIp;
    }

    /** Its second part, under the limiter's lock: the address gets a bucket if it has none. */
    method EnsureBucket(ip: string, now: real)
      requires Valid()
      modifies `perIp
      ensures Valid() && ip in perIp && fresh(perIp.Values - old(perIp.Values))
      ensures Model() == Act(old(Model()), Settle(ip, now)).1
    {
      if ip !in perIp {
        var bucket := new TokenBucket(ipRate, ipRate * 3.0, now);
        perIp := perIp[ip := bucket];
      }
      assert Model().perIp == old(Model().perIp[ip := BucketOf(Model(), ip, now)]);
    }

    /** Its third part, under the lock of the address's bucket. */
    method ChargeBucket(ip: string, now: real) returns (admitted: bool)
      requires Valid() && ip in perIp
      modifies `rejected, perIp[ip]
      ensures Valid() && perIp == old(perIp)
      ensures (admitted, Model()) == Act(old(Model()), Spend(ip, now))
    {
      ghost var bucket := perIp[ip].Model();
      admitted := perIp[ip].Take(1.0, now);
      if !admitted {
        rejected := rejected[ip := (if ip in rejected then rejected[ip] else 0) + 1];
      }
      assert Model().perIp == old(Model()).perIp[ip := Allow(bucket, 1.0, now).1];
    }

    /** A whole call in which no other step comes in between. */
    method Request(ip: string, atGlobal: real, atCreation: real, atIp: real) returns (admitted: bool)
      requires Valid()
      modifies this, whole, perIp.Values
      ensures Valid() && fresh(perIp.Values - old(perIp.Values))
      ensures var (granted, entered) := Act(old(Model()), Enter(ip, atGlobal));
        (admitted, Model()) ==
          if granted then Act(Act(entered, Settle(ip, atCreation)).1, Spend(ip, atIp)) else (false, entered)
    {
      admitted := EnterCall(ip, atGlobal);
      if admitted {
        EnsureBucket(ip, atCreation);
        admitted := ChargeBucket(ip, atIp);
      }
    }

    method Set(ip: string, rps: real, now: real)
      requires Valid()
      modifies this
      ensures Valid() && fresh(perIp.Values - old(perIp.Values))
      ensures Model() == Act(old(Model()), SetLimit(ip, now, rps)).1
    {
      var bucket := new TokenBucket(rps, rps * 3.0, now);
      perIp := perIp[ip := bucket];
    }
  }
}
