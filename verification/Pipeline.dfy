/** The CI pipeline's job runner (runtime/ci.py). */
module Pipeline {
  import opened Wrappers
  import opened Graphs

  datatype StepOutcome = Exit(code: int) | Timeout | Crash

  datatype Status = Pending | Running | Ok | Failed | Skipped

  datatype Job = Job(needs: seq<string>, steps: seq<Status>, status: Status)

  /** How each step of each job would end if it were run. */
  type Outcomes = (string, nat) -> StepOutcome

  type Jobs = map<string, Job>

  /* ---------- one job ---------- */

  /** The first step from i on that does not exit with 0. */
  function FirstFailure(name: string, out: Outcomes, i: nat, n: nat): nat
    requires i <= n
    decreases n - i
  {
    if i == n || out(name, i) != Exit(0) then i else FirstFailure(name, out, i + 1, n)
  }

  /** Steps run in order up to the first failure; the ones after it are not touched. */
  function Executed(name: string, job: Job, out: Outcomes): Job {
    var n := |job.steps|;
    var k := FirstFailure(name, out, 0, n);
    var ran := seq(k, _ => Ok);
    if k < n then job.(steps := ran + [Failed] + job.steps[k + 1..], status := Failed)
    else job.(steps := ran, status := Ok)
  }

  lemma {:induction false} FirstFailureIsFirst(name: string, out: Outcomes, i: nat, n: nat)
    requires i <= n
    ensures i <= FirstFailure(name, out, i, n) <= n
    ensures forall j | i <= j < FirstFailure(name, out, i, n) :: out(name, j) == Exit(0)
    ensures FirstFailure(name, out, i, n) < n ==> out(name, FirstFailure(name, out, i, n)) != Exit(0)
    decreases n - i
  {
    if i < n && out(name, i) == Exit(0) {
      FirstFailureIsFirst(name, out, i + 1, n);
    }
  }

  predicate AllStepsSucceed(name: string, job: Job, out: Outcomes) {
    forall i | 0 <= i < |job.steps| :: out(name, i) == Exit(0)
  }

  lemma {:induction false} ExecutedStatus(name: string, job: Job, out: Outcomes)
    ensures Executed(name, job, out).status == if AllStepsSucceed(name, job, out) then Ok else Failed
    ensures Executed(name, job, out).needs == job.needs && |Executed(name, job, out).steps| == |job.steps|
  {
    FirstFailureIsFirst(name, out, 0, |job.steps|);
  }

  /** A step is ok if it and all before it exit with 0, failed if it is the first that does not, else untouched. */
  lemma {:induction false} ExecutedSteps(name: string, job: Job, out: Outcomes, i: nat)
    requires i < |job.steps|
    ensures |Executed(name, job, out).steps| == |job.steps|
    ensures Executed(name, job, out).steps[i] ==
      if forall j | 0 <= j <= i :: out(name, j) == Exit(0) then Ok
      else if forall j | 0 <= j < i :: out(name, j) == Exit(0) then Failed
      else job.steps[i]
  {
    FirstFailureIsFirst(name, out, 0, |job.steps|);
  }

  /* ---------- the loop over jobs ---------- */

  /** The jobs as they stand, those handled so far, and the order in which they were handled. */
  datatype Progress = Progress(jobs: Jobs, completed: set<string>, log: Log)

  predicate NeedsIn(needs: seq<string>, completed: set<string>) {
    forall d <- needs :: d in completed
  }

  predicate NeedFailed(needs: seq<string>, jobs: Jobs) {
    exists d <- needs :: d in jobs && jobs[d].status == Failed
  }

  /** One job's turn: it waits, is skipped, or is executed. */
  function Visit(p: Progress, name: string, out: Outcomes): Progress
    requires name in p.jobs
  {
    var job := p.jobs[name];
    if name in p.completed || !NeedsIn(job.needs, p.completed) then p
    else
      var handled := if NeedFailed(job.needs, p.jobs) then job.(status := Skipped) else Executed(name, job, out);
      Progress(p.jobs[name := handled], p.completed + {name}, Entry(p.log, name))
  }

  ghost predicate Orders(order: seq<string>, jobs: Jobs) {
    Distinct(order) && forall x :: x in order <==> x in jobs
  }

  function Pass(p: Progress, order: seq<string>, out: Outcomes): (q: Progress)
    requires forall x <- order :: x in p.jobs
    ensures q.jobs.Keys == p.jobs.Keys
  {
    if order == [] then p
    else
      var before := Pass(p, order[..|order| - 1], out);
      Visit(before, order[|order| - 1], out)
  }

  function Passes(p: Progress, order: seq<string>, out: Outcomes, n: nat): (q: Progress)
    requires forall x <- order :: x in p.jobs
    ensures q.jobs.Keys == p.jobs.Keys
  {
    if n == 0 then p else Pass(Passes(p, order, out, n - 1), order, out)
  }

  function Start(jobs: Jobs): Progress {
    Progress(jobs, {}, Empty)
  }

  /* ---------- the result of a run ---------- */

  function NeedsGraph(jobs: Jobs): Graph {
    map x | x in jobs :: jobs[x].needs
  }

  /** What handling a job makes of it, given how the handled jobs stand. */
  function Outcome(name: string, job: Job, jobs: Jobs, out: Outcomes): Job {
    if NeedFailed(job.needs, jobs) then job.(status := Skipped) else Executed(name, job, out)
  }

  /**
   Every handled job was handled once, after its needs, and stands as its needs' final states and its
   own steps dictate; the others are untouched.
   */
  ghost predicate Sound(initial: Jobs, p: Progress, out: Outcomes) {
    && p.jobs.Keys == initial.Keys && p.completed <= initial.Keys
    && p.completed == Elements(p.log) && Layered(NeedsGraph(initial), p.log)
    && (forall x <- initial :: x !in p.completed ==> p.jobs[x] == initial[x])
    && (forall x <- p.completed :: p.jobs[x] == Outcome(x, initial[x], p.jobs, out))
  }

  lemma {:induction false} HandledNeeds(g: Graph, log: Log, x: string)
    requires Layered(g, log) && x in Elements(log)
    ensures forall d <- Deps(g, x) :: d in Elements(log)
  {
    if log.name != x {
      HandledNeeds(g, log.before, x);
    }
  }

  lemma {:induction false} VisitKeepsSound(initial: Jobs, p: Progress, name: string, out: Outcomes)
    requires Sound(initial, p, out) && name in initial
    ensures Sound(initial, Visit(p, name, out), out)
  {
    var q := Visit(p, name, out);
    if q != p {
      var g := NeedsGraph(initial);
      forall x | x in p.completed
        ensures q.jobs[x] == Outcome(x, initial[x], q.jobs, out)
      {
        HandledNeeds(g, p.log, x);
      }
    }
  }

  lemma {:induction false} PassKeepsSound(initial: Jobs, p: Progress, order: seq<string>, out: Outcomes)
    requires Sound(initial, p, out) && forall x <- order :: x in initial
    ensures Sound(initial, Pass(p, order, out), out)
    decreases order
  {
    if order != [] {
      var front := order[..|order| - 1];
      assert forall x <- front :: x in order;
      PassKeepsSound(initial, p, front, out);
      VisitKeepsSound(initial, Pass(p, front, out), order[|order| - 1], out);
    }
  }

  lemma {:induction false} PassesKeepSound(initial: Jobs, order: seq<string>, out: Outcomes, n: nat)
    requires Orders(order, initial)
    ensures Sound(initial, Passes(Start(initial), order, out, n), out)
    decreases n
  {
    if n > 0 {
      PassesKeepSound(initial, order, out, n - 1);
      PassKeepsSound(initial, Passes(Start(initial), order, out, n - 1), order, out);
    }
  }

  /* ---------- how far a run gets ---------- */

  /** Every job whose needs are all in the set is in it too. */
  ghost predicate Closed(jobs: Jobs, completed: set<string>) {
    forall x <- jobs :: NeedsIn(jobs[x].needs, completed) ==> x in completed
  }

  lemma {:induction false} PassGrows(p: Progress, order: seq<string>, out: Outcomes)
    requires forall x <- order :: x in p.jobs
    ensures p.completed <= Pass(p, order, out).completed
    decreases order
  {
    if order != [] {
      PassGrows(p, order[..|order| - 1], out);
    }
  }

  /** A pass that completes nothing new changes nothing, and then every job that could be handled was. */
  lemma {:induction false} IdlePass(p: Progress, order: seq<string>, out: Outcomes)
    requires forall x <- order :: x in p.jobs
    requires Pass(p, order, out).completed == p.completed
    ensures Pass(p, order, out) == p
    ensures forall x <- order :: NeedsIn(p.jobs[x].needs, p.completed) ==> x in p.completed
    decreases order
  {
    if order != [] {
      var front, last := order[..|order| - 1], order[|order| - 1];
      var before := Pass(p, front, out);
      PassGrows(p, front, out);
      assert before.completed <= Visit(before, last, out).completed;
      IdlePass(p, front, out);
      assert order == front + [last];
    }
  }

  lemma {:induction false} ClosedPass(p: Progress, order: seq<string>, out: Outcomes)
    requires forall x <- order :: x in p.jobs
    requires forall x <- order :: NeedsIn(p.jobs[x].needs, p.completed) ==> x in p.completed
    ensures Pass(p, order, out) == p
    decreases order
  {
    if order != [] {
      ClosedPass(p, order[..|order| - 1], out);
    }
  }

  ghost predicate SameNeeds(initial: Jobs, jobs: Jobs) {
    jobs.Keys == initial.Keys && forall x <- initial :: jobs[x].needs == initial[x].needs
  }

  lemma {:induction false} PassesKeepNeeds(initial: Jobs, order: seq<string>, out: Outcomes, n: nat)
    requires Orders(order, initial)
    ensures SameNeeds(initial, Passes(Start(initial), order, out, n).jobs)
  {
    PassesKeepSound(initial, order, out, n);
  }

  /** From p to q a run at rest stays as it is, and any other run completes a job. */
  ghost predicate RestsOrGrows(initial: Jobs, p: Progress, q: Progress) {
    if Closed(initial, p.completed) then q == p else |p.completed| < |q.completed|
  }

  lemma {:induction false} PassRestsOrGrows(initial: Jobs, p: Progress, order: seq<string>, out: Outcomes)
    requires Orders(order, initial) && SameNeeds(initial, p.jobs)
    ensures RestsOrGrows(initial, p, Pass(p, order, out))
  {
    if Closed(initial, p.completed) {
      ClosedPass(p, order, out);
    } else {
      PassGrows(p, order, out);
      if Pass(p, order, out).completed == p.completed {
        IdlePass(p, order, out);
      } else {
        GrowsBySize(p.completed, Pass(p, order, out).completed);
      }
    }
  }

  /** A run that goes on like that has, after n passes, come to rest or completed at least n jobs. */
  lemma {:induction false} RestOrProgress(initial: Jobs, run: seq<Progress>, n: nat)
    requires n < |run| && forall i | 0 <= i < |run| - 1 :: RestsOrGrows(initial, run[i], run[i + 1])
    ensures Closed(initial, run[n].completed) || |run[n].completed| >= n
    decreases n
  {
    if n > 0 {
      RestOrProgress(initial, run, n - 1);
      assert RestsOrGrows(initial, run[n - 1], run[n - 1 + 1]);
    }
  }

  lemma {:induction false} GrowsBySize(a: set<string>, b: set<string>)
    requires a <= b && a != b
    ensures |a| < |b|
  {
    var x :| x in b && x !in a;
    SizeOfSubset(a + {x}, b);
  }

  lemma {:induction false} SizeOfSubset(a: set<string>, b: set<string>)
    requires a <= b
    ensures |a| <= |b|
  {
    if a != {} {
      var x :| x in a;
      SizeOfSubset(a - {x}, b - {x});
    }
  }

  lemma {:induction false} SizeOfOrder(order: seq<string>)
    requires Distinct(order)
    ensures |set x | x in order| == |order|
  {
    if order != [] {
      var front, last := order[..|order| - 1], order[|order| - 1];
      SizeOfOrder(front);
      assert order == front + [last];
      assert (set x | x in order) == (set x | x in front) + {last};
    }
  }

  /** The successive states of a run, pass by pass. */
  lemma {:induction false} History(initial: Jobs, order: seq<string>, out: Outcomes, n: nat)
    returns (run: seq<Progress>)
    requires Orders(order, initial)
    ensures |run| == n + 1 && run[n] == Passes(Start(initial), order, out, n)
    ensures forall i | 0 <= i < n :: RestsOrGrows(initial, run[i], run[i + 1])
    decreases n
  {
    if n == 0 {
      run := [Start(initial)];
    } else {
      var front := History(initial, order, out, n - 1);
      var next := NextState(initial, order, out, n - 1, front[n - 1]);
      run := Extended(initial, front, next);
    }
  }

  lemma {:induction false} Extended(initial: Jobs, front: seq<Progress>, next: Progress) returns (run: seq<Progress>)
    requires front != [] && forall i | 0 <= i < |front| - 1 :: RestsOrGrows(initial, front[i], front[i + 1])
    requires RestsOrGrows(initial, front[|front| - 1], next)
    ensures |run| == |front| + 1 && run[|front|] == next
    ensures forall i | 0 <= i < |run| - 1 :: RestsOrGrows(initial, run[i], run[i + 1])
  {
    run := front + [next];
    forall i | 0 <= i < |run| - 1
      ensures RestsOrGrows(initial, run[i], run[i + 1])
    {
      if i < |front| - 1 {
        assert RestsOrGrows(initial, front[i], front[i + 1]);
      }
    }
  }

  lemma {:induction false} NextState(initial: Jobs, order: seq<string>, out: Outcomes, n: nat, p: Progress)
    returns (next: Progress)
    requires Orders(order, initial) && p == Passes(Start(initial), order, out, n)
    ensures next == Passes(Start(initial), order, out, n + 1) && RestsOrGrows(initial, p, next)
  {
    PassesKeepNeeds(initial, order, out, n);
    PassRestsOrGrows(initial, p, order, out);
    next := Pass(p, order, out);
  }

  lemma {:induction false} CompletedAreJobs(initial: Jobs, order: seq<string>, out: Outcomes, n: nat)
    requires Orders(order, initial)
    ensures Passes(Start(initial), order, out, n).completed <= initial.Keys
  {
    PassesKeepSound(initial, order, out, n);
  }

  /** The bound of twice as many passes as jobs never cuts a run short. */
  lemma {:induction false} RunComesToRest(initial: Jobs, order: seq<string>, out: Outcomes, n: nat)
    requires Orders(order, initial) && n >= |order|
    ensures Closed(initial, Passes(Start(initial), order, out, n).completed)
  {
    var run := History(initial, order, out, n);
    RestOrProgress(initial, run, n);
    CompletedAreJobs(initial, order, out, n);
    SizeOfOrder(order);
    assert (set x | x in order) == initial.Keys;
    var completed := Passes(Start(initial), order, out, n).completed;
    if completed != initial.Keys {
      GrowsBySize(completed, initial.Keys);
    }
  }

  /* ---------- which jobs complete ---------- */

  lemma {:induction false} LogIsLeast(g: Graph, log: Log, closed: set<string>)
    requires Layered(g, log)
    requires forall x <- Elements(log) :: NeedsIn(Deps(g, x), closed) ==> x in closed
    ensures Elements(log) <= closed
  {
    if log.Entry? {
      LogIsLeast(g, log.before, closed);
    }
  }

  /** The completed jobs are the least set closed under "all needs completed". */
  lemma {:induction false} CompletedIsLeastFixedPoint(initial: Jobs, order: seq<string>, out: Outcomes, n: nat)
    requires Orders(order, initial) && n >= |order|
    ensures var completed := Passes(Start(initial), order, out, n).completed;
      Closed(initial, completed) && forall c: set<string> :: Closed(initial, c) ==> completed <= c
  {
    RunComesToRest(initial, order, out, n);
    PassesKeepSound(initial, order, out, n);
    var p := Passes(Start(initial), order, out, n);
    forall c: set<string> | Closed(initial, c)
      ensures p.completed <= c
    {
      LogIsLeast(NeedsGraph(initial), p.log, c);
    }
  }

  /** Everything the job needs, directly or not, is defined and free of cycles. */
  ghost predicate Runnable(jobs: Jobs, x: string) {
    forall y :: Reaches(NeedsGraph(jobs), x, y) ==> y in jobs && !OnCycle(NeedsGraph(jobs), y)
  }

  lemma {:induction false} LogAgrees(initial: Jobs, p: Progress, q: Progress, out: Outcomes, log: Log)
    requires Sound(initial, p, out) && Sound(initial, q, out) && p.completed == q.completed
    requires Layered(NeedsGraph(initial), log) && Elements(log) <= p.completed
    ensures forall x <- Elements(log) :: p.jobs[x] == q.jobs[x]
    decreases log
  {
    if log.Entry? {
      LogAgrees(initial, p, q, out, log.before);
      assert forall d <- initial[log.name].needs :: d in Elements(log.before);
      assert NeedFailed(initial[log.name].needs, p.jobs) <==> NeedFailed(initial[log.name].needs, q.jobs);
    }
  }

  /** What the needs and the outcomes of the steps leave open is only which jobs are handled. */
  lemma {:induction false} SoundIsUnique(initial: Jobs, p: Progress, q: Progress, out: Outcomes)
    requires Sound(initial, p, out) && Sound(initial, q, out) && p.completed == q.completed
    ensures p.jobs == q.jobs
  {
    LogAgrees(initial, p, q, out, p.log);
    assert forall x <- initial :: p.jobs[x] == q.jobs[x];
  }

  lemma {:induction false} CompletedAgree(
      initial: Jobs, order: seq<string>, other: seq<string>, out: Outcomes, n: nat, m: nat)
    requires Orders(order, initial) && Orders(other, initial) && n >= |order| && m >= |other|
    ensures Passes(Start(initial), order, out, n).completed == Passes(Start(initial), other, out, m).completed
  {
    CompletedIsLeastFixedPoint(initial, order, out, n);
    CompletedIsLeastFixedPoint(initial, other, out, m);
  }

  /** The order in which the jobs are written has no say in how any of them ends. */
  lemma {:induction false} OrderHasNoSay(
      initial: Jobs, order: seq<string>, other: seq<string>, out: Outcomes, n: nat, m: nat)
    requires Orders(order, initial) && Orders(other, initial) && n >= |order| && m >= |other|
    ensures Passes(Start(initial), order, out, n).completed == Passes(Start(initial), other, out, m).completed
    ensures Passes(Start(initial), order, out, n).jobs == Passes(Start(initial), other, out, m).jobs
  {
    PassesKeepSound(initial, order, out, n);
    PassesKeepSound(initial, other, out, m);
    CompletedAgree(initial, order, other, out, n, m);
    SoundIsUnique(initial, Passes(Start(initial), order, out, n), Passes(Start(initial), other, out, m), out);
  }

  lemma {:induction false} HandledIsRunnable(initial: Jobs, p: Progress, out: Outcomes, x: string)
    requires Sound(initial, p, out) && x in p.completed
    ensures Runnable(initial, x)
  {
    var g, names := NeedsGraph(initial), Names(p.log);
    LayeredIsInOrder(g, p.log);
    forall y | Reaches(g, x, y)
      ensures y in initial && !OnCycle(g, y)
    {
      OrderedNamesAreAcyclic(g, names, x, y);
    }
  }

  /** A job that never completes, although all it reaches is defined, heads a path of such jobs of any length. */
  lemma {:induction false} StuckPath(jobs: Jobs, completed: set<string>, x: string, n: nat) returns (path: seq<string>)
    requires Closed(jobs, completed) && x !in completed
    requires forall y :: Reaches(NeedsGraph(jobs), x, y) ==> y in jobs
    ensures IsPath(NeedsGraph(jobs), path) && |path| == n + 1 && path[0] == x
    ensures forall y <- path :: y in jobs
    decreases n
  {
    var g := NeedsGraph(jobs);
    ReachesSelf(g, x);
    if n == 0 {
      return [x];
    }
    var d :| d in jobs[x].needs && d !in completed;
    forall y | Reaches(g, d, y)
      ensures y in jobs
    {
      ReachesThrough(g, x, d, y);
    }
    var rest := StuckPath(jobs, completed, d, n - 1);
    return [x] + rest;
  }

  /** A long path within the jobs meets some job twice, and that job is on a cycle. */
  lemma {:induction false} LongPathHasCycle(jobs: Jobs, path: seq<string>)
    requires IsPath(NeedsGraph(jobs), path) && |path| > |jobs| && forall y <- path :: y in jobs
    ensures exists y :: Reaches(NeedsGraph(jobs), path[0], y) && OnCycle(NeedsGraph(jobs), y)
  {
    var g := NeedsGraph(jobs);
    if Distinct(path) {
      SizeOfOrder(path);
      SizeOfSubset((set x | x in path), jobs.Keys);
      assert false;
    }
    var i, j :| 0 <= i < j < |path| && path[i] == path[j];
    assert IsPath(g, path[..i + 1]) && path[..i + 1][i] == path[i];
    assert IsPath(g, path[i..j + 1]) && path[i..j + 1][j - i] == path[j];
    ClosedPathIsCycle(g, path[i..j + 1]);
    assert Reaches(g, path[0], path[i]);
  }

  /**
   Which jobs a run completes, and so executes or skips, depends on the needs alone: exactly those
   that reach neither an undefined job nor a cycle.
   */
  lemma {:induction false} CompletedIffRunnable(initial: Jobs, order: seq<string>, out: Outcomes, n: nat, x: string)
    requires Orders(order, initial) && n >= |order| && x in initial
    ensures x in Passes(Start(initial), order, out, n).completed <==> Runnable(initial, x)
  {
    RunComesToRest(initial, order, out, n);
    PassesKeepSound(initial, order, out, n);
    var p := Passes(Start(initial), order, out, n);
    if x in p.completed {
      HandledIsRunnable(initial, p, out, x);
    } else if Runnable(initial, x) {
      var path := StuckPath(initial, p.completed, x, |initial|);
      LongPathHasCycle(initial, path);
      assert false;
    }
  }

  /* ---------- what a run reports ---------- */

  predicate Passed(jobs: Jobs) {
    forall x <- jobs :: jobs[x].status == Ok
  }

  /** A completed job is skipped exactly when one it needs directly has failed; a skipped need does not count. */
  lemma {:induction false} SkippedIffNeedFailed(initial: Jobs, order: seq<string>, out: Outcomes, n: nat, x: string)
    requires Orders(order, initial) && x in initial
    requires x in Passes(Start(initial), order, out, n).completed
    ensures var jobs := Passes(Start(initial), order, out, n).jobs;
      && (jobs[x].status == Skipped <==> exists d <- initial[x].needs :: d in jobs && jobs[d].status == Failed)
      && (jobs[x].status != Skipped ==> jobs[x] == Executed(x, initial[x], out))
  {
    PassesKeepSound(initial, order, out, n);
    ExecutedStatus(x, initial[x], out);
  }

  /** Needs are handled before the jobs that need them, and no job twice. */
  lemma {:induction false} HandledInOrder(initial: Jobs, order: seq<string>, out: Outcomes, n: nat)
    requires Orders(order, initial)
    ensures var p := Passes(Start(initial), order, out, n);
      && Distinct(Names(p.log)) && InOrder(NeedsGraph(initial), Names(p.log))
      && forall x :: x in Names(p.log) <==> x in p.completed
  {
    PassesKeepSound(initial, order, out, n);
    LayeredIsInOrder(NeedsGraph(initial), Passes(Start(initial), order, out, n).log);
  }

  ghost predicate AllPending(jobs: Jobs) {
    forall x <- jobs :: jobs[x].status == Pending
  }

  lemma {:induction false} NothingFails(initial: Jobs, p: Progress, out: Outcomes)
    requires Sound(initial, p, out) && AllPending(initial)
    requires forall x <- initial :: AllStepsSucceed(x, initial[x], out)
    ensures forall x <- p.completed :: p.jobs[x].status == Ok
  {
    forall x | x in initial
      ensures p.jobs[x].status != Failed
    {
      ExecutedStatus(x, initial[x], out);
    }
    forall x | x in p.completed
      ensures p.jobs[x].status == Ok
    {
      ExecutedStatus(x, initial[x], out);
    }
  }

  lemma {:induction false} OkMeansExecuted(initial: Jobs, p: Progress, out: Outcomes, x: string)
    requires Sound(initial, p, out) && AllPending(initial) && x in initial && p.jobs[x].status == Ok
    ensures x in p.completed && AllStepsSucceed(x, initial[x], out)
  {
    ExecutedStatus(x, initial[x], out);
  }

  /** A run passes exactly when every job can run and every step of every job would succeed. */
  lemma {:induction false} PassedIff(initial: Jobs, order: seq<string>, out: Outcomes, n: nat)
    requires Orders(order, initial) && n >= |order| && AllPending(initial)
    ensures Passed(Passes(Start(initial), order, out, n).jobs)
      <==> forall x <- initial :: Runnable(initial, x) && AllStepsSucceed(x, initial[x], out)
  {
    var p := Passes(Start(initial), order, out, n);
    PassesKeepSound(initial, order, out, n);
    if Passed(p.jobs) {
      forall x | x in initial
        ensures Runnable(initial, x) && AllStepsSucceed(x, initial[x], out)
      {
        OkMeansExecuted(initial, p, out, x);
        CompletedIffRunnable(initial, order, out, n, x);
      }
    } else if forall x <- initial :: Runnable(initial, x) && AllStepsSucceed(x, initial[x], out) {
      NothingFails(initial, p, out);
      var x :| x in p.jobs && p.jobs[x].status != Ok;
      CompletedIffRunnable(initial, order, out, n, x);
      assert false;
    }
  }

  /* ---------- running a single job ---------- */

  /** With a filter only the named job is built, but with all its needs. */
  function BuildJobs(config: Jobs, filter: Option<string>): Jobs {
    if filter.None? || filter.value == "" then config
    else map x | x in config && x == filter.value :: config[x]
  }

  /** Without a filter all jobs are built, and with one just the job of that name. */
  lemma {:induction false} BuiltJobs(config: Jobs, filter: Option<string>, x: string)
    ensures x in BuildJobs(config, filter) <==>
      x in config && (filter.None? || filter.value == "" || filter.value == x)
    ensures x in BuildJobs(config, filter) ==> BuildJobs(config, filter)[x] == config[x]
  {
  }

  /**
   Although a filtered run is documented to run the job and its dependencies, the dependencies are
   dropped: the job completes exactly when it has none.
   */
  lemma {:induction false} FilteredJobRunsIffNoNeeds(config: Jobs, name: string, out: Outcomes)
    requires name in config && name != ""
    ensures var jobs := BuildJobs(config, Some(name));
      name in Passes(Start(jobs), [name], out, 2).completed <==> config[name].needs == []
  {
    var jobs := BuildJobs(config, Some(name));
    var g := NeedsGraph(jobs);
    assert Orders([name], jobs);
    CompletedIffRunnable(jobs, [name], out, 2, name);
    if config[name].needs == [] {
      forall y | Reaches(g, name, y)
        ensures y == name && !OnCycle(g, y)
      {
        ReachesOnlySelf(g, name, y);
      }
    } else {
      var d := config[name].needs[0];
      assert d in Deps(g, name);
      ReachesSelf(g, d);
      ReachesSelf(g, name);
      ReachesThrough(g, name, d, d);
      if d == name {
        assert OnCycle(g, name);
      }
    }
  }

  /* ---------- the runner ---------- */

  lemma {:induction false} FullPassesIdle(p: Progress, order: seq<string>, out: Outcomes)
    requires forall x <- order :: x in p.jobs && x in p.completed
    ensures Pass(p, order, out) == p
    decreases order
  {
    if order != [] {
      FullPassesIdle(p, order[..|order| - 1], out);
    }
  }

  lemma {:induction false} RestOfPassesIdle(p: Progress, order: seq<string>, out: Outcomes, k: nat, n: nat)
    requires k <= n && forall x <- order :: x in p.jobs
    requires forall x <- order :: x in Passes(p, order, out, k).completed
    ensures Passes(p, order, out, n) == Passes(p, order, out, k)
    decreases n
  {
    if k < n {
      RestOfPassesIdle(p, order, out, k, n - 1);
      FullPassesIdle(Passes(p, order, out, k), order, out);
    }
  }

  datatype RunStatus = InProgress | AllPassed | SomeFailed

  class PipelineRun {
    const order: seq<string>
    var jobs: Jobs
    var status: RunStatus

    ghost predicate Valid()
      reads this
    {
      Orders(order, jobs)
    }

    constructor (jobs: Jobs, order: seq<string>)
      requires Orders(order, jobs)
      ensures Valid() && this.jobs == jobs && this.order == order && status == InProgress
    {
      this.jobs, this.order, status := jobs, order, InProgress;
    }

    method ExecuteJob(name: string, out: Outcomes)
      requires name in jobs
      modifies this`jobs
      ensures jobs == old(jobs)[name := Executed(name, old(jobs)[name], out)]
    {
      var start := jobs[name];
      var n := |start.steps|;
      var job := start.(status := Running);
      var i := 0;
      while i < n && job.status != Failed
        invariant 0 <= i <= n && |job.steps| == n && job.status in {Running, Failed} && job.needs == start.needs
        invariant job.status == Running ==> FirstFailure(name, out, 0, n) == FirstFailure(name, out, i, n)
        invariant job.status == Failed ==> i == FirstFailure(name, out, 0, n) < n && job.steps[i] == Failed
        invariant forall j | 0 <= j < i :: job.steps[j] == Ok
        invariant forall j | i < j < n :: job.steps[j] == start.steps[j]
        invariant job.status == Running && i < n ==> job.steps[i] == start.steps[i]
        decreases n - i, job.status != Failed
      {
        job := job.(steps := job.steps[i := Running]);
        if out(name, i) == Exit(0) {
          job := job.(steps := job.steps[i := Ok]);
          i := i + 1;
        } else {
          job := job.(steps := job.steps[i := Failed], status := Failed);
        }
      }
      if job.status != Failed {
        job := job.(status := Ok);
      }
      assert job.steps == Executed(name, start, out).steps;
      jobs := jobs[name := job];
    }

    /** One turn of the inner loop; the log only serves the specification. */
    method TakeTurn(name: string, out: Outcomes, completed: set<string>, ghost log: Log)
      returns (done: set<string>, ghost longer: Log)
      requires name in jobs
      modifies this`jobs
      ensures Progress(jobs, done, longer) == Visit(Progress(old(jobs), completed, log), name, out)
    {
      done, longer := completed, log;
      if name in completed || !NeedsIn(jobs[name].needs, completed) {
        return;
      }
      if NeedFailed(jobs[name].needs, jobs) {
        jobs := jobs[name := jobs[name].(status := Skipped)];
      } else {
        ExecuteJob(name, out);
      }
      done, longer := completed + {name}, Entry(log, name);
    }

    method MakePass(out: Outcomes, completed: set<string>, ghost log: Log)
      returns (done: set<string>, ghost longer: Log)
      requires forall x <- order :: x in jobs
      modifies this`jobs
      ensures jobs.Keys == old(jobs.Keys)
      ensures Progress(jobs, done, longer) == Pass(Progress(old(jobs), completed, log), order, out)
    {
      ghost var before := Progress(jobs, completed, log);
      done, longer := completed, log;
      for i := 0 to |order|
        invariant jobs.Keys == before.jobs.Keys
        invariant forall x <- order[..i] :: x in before.jobs
        invariant Progress(jobs, done, longer) == Pass(before, order[..i], out)
      {
        assert order[..i + 1][..i] == order[..i];
        done, longer := TakeTurn(order[i], out, done, longer);
      }
      assert order[..|order|] == order;
    }

    /** The passes of a run, with their bound and their early exit. */
    method MakePasses(out: Outcomes)
      requires forall x <- order :: x in jobs
      modifies this`jobs
      ensures jobs == Passes(Start(old(jobs)), order, out, 2 * |order|).jobs
    {
      ghost var initial := Start(jobs);
      var completed: set<string> := {};
      ghost var log := Empty;
      var k, bound := 0, 2 * |order|;
      while k < bound && !(forall x <- order :: x in completed)
        invariant 0 <= k <= bound
        invariant forall x <- order :: x in jobs && x in initial.jobs
        invariant Progress(jobs, completed, log) == Passes(initial, order, out, k)
      {
        completed, log := MakePass(out, completed, log);
        k := k + 1;
      }
      if k < bound {
        RestOfPassesIdle(initial, order, out, k, bound);
      }
    }

    method Execute(out: Outcomes)
      requires Valid()
      modifies this
      ensures Valid()
      ensures jobs == Passes(Start(old(jobs)), order, out, 2 * |order|).jobs
      ensures status == if Passed(jobs) then AllPassed else SomeFailed
      ensures AllPending(old(jobs)) ==>
        (status == AllPassed <==>
          forall x <- old(jobs) :: Runnable(old(jobs), x) && AllStepsSucceed(x, old(jobs)[x], out))
    {
      if AllPending(jobs) {
        PassedIff(jobs, order, out, 2 * |order|);
      }
      MakePasses(out);
      status := if Passed(jobs) then AllPassed else SomeFailed;
    }
  }
}
