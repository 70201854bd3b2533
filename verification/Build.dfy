/** Incremental task runs (runtime/build.py). */
module Build {
  import opened Wrappers
  import opened Graphs
  import opened TaskOrder

  /* ---------- tasks, hashes and effects ---------- */

  type Store = map<string, string>

  const HASH_STORE := "/system/build_hashes.json"

  datatype Task = Task(
    name: string, deps: seq<string>, shell: Option<string>, python: bool, inputs: seq<string>, phony: bool)
  {
    /** An absent and an empty shell command both count as none. */
    predicate HasShell() {
      shell.Some? && shell.value != ""
    }
  }

  datatype Status = Ok | Failed | Skipped | UpToDate

  datatype TaskResult = TaskResult(name: string, status: Status) {
    predicate Good() {
      !status.Failed?
    }
  }

  datatype ShellOutcome = Exit(code: int) | Timeout | Crash

  /** What one execution of a task does to the object store, and how it ends. */
  datatype Effect = Effect(shell: ShellOutcome, afterShell: Store, pythonOk: bool, afterPython: Store)

  /** The digest function (as hex text), the encoding of the hash table, and whether saving it succeeds. */
  datatype Env = Env(sha: string -> string, dump: map<string, string> -> string, writable: bool) {
    function Digest(text: string, n: nat): string {
      if |sha(text)| <= n then sha(text) else sha(text)[..n]
    }
  }

  datatype Host = Host(hashes: map<string, string>, store: Store)

  function InputParts(env: Env, inputs: seq<string>, store: Store): seq<string> {
    if inputs == [] then []
    else
      [if inputs[0] in store then env.Digest(store[inputs[0]], 8) else "missing"] + InputParts(env, inputs[1..], store)
  }

  function Joined(parts: seq<string>): string {
    if parts == [] then "" else if |parts| == 1 then parts[0] else parts[0] + "|" + Joined(parts[1..])
  }

  function InputHash(env: Env, t: Task, store: Store): string {
    env.Digest(Joined(HashedParts(env, t, store)), 16)
  }

  function HashedParts(env: Env, t: Task, store: Store): seq<string> {
    InputParts(env, t.inputs, store) + if t.HasShell() then [env.Digest(t.shell.value, 8)] else []
  }

  predicate IsUpToDate(env: Env, t: Task, h: Host) {
    && !t.phony
    && t.name in h.hashes && h.hashes[t.name] != ""
    && h.hashes[t.name] == InputHash(env, t, h.store)
  }

  /** The store after a task's action, and whether the action succeeded. */
  function Perform(t: Task, store: Store, e: Effect): (bool, Store) {
    var afterShell := if t.HasShell() then e.afterShell else store;
    if t.HasShell() && e.shell != Exit(0) then (false, afterShell)
    else if t.python then (e.pythonOk, e.afterPython)
    else (true, afterShell)
  }

  function MarkDone(env: Env, t: Task, h: Host): Host {
    var hashes := h.hashes[t.name := InputHash(env, t, h.store)];
    Host(hashes, if env.writable then h.store[HASH_STORE := env.dump(hashes)] else h.store)
  }

  function RunTask(env: Env, t: Task, dry: bool, h: Host, e: Effect): (Status, Host) {
    if IsUpToDate(env, t, h) then (UpToDate, h)
    else if dry then (Skipped, h)
    else
      var (succeeded, store) := Perform(t, h.store, e);
      if succeeded then (Ok, MarkDone(env, t, Host(h.hashes, store))) else (Failed, Host(h.hashes, store))
  }

  /**
   What one turn does to a task: an up-to-date one and a dry run change nothing; otherwise it fails if its command
   exits with anything but 0 or its function raises, and then nothing is recorded; and if not, just its own record
   changes.
   */
  lemma {:induction false} TurnOutcome(env: Env, t: Task, dry: bool, h: Host, e: Effect)
    ensures var (status, after) := RunTask(env, t, dry, h, e);
      var command := t.shell.Some? && t.shell.value != "";
      var commandFails := command && e.shell != Exit(0);
      && (status.UpToDate? ==> !t.phony && t.name in h.hashes && h.hashes[t.name] != "")
      && (status.UpToDate? || dry ==> after == h)
      && (status.UpToDate?
         || status == if dry then Skipped else if commandFails || (t.python && !e.pythonOk) then Failed else Ok)
      && (status.Failed? ==> after.hashes == h.hashes)
      && (status.Failed? && commandFails ==> after.store == e.afterShell)
      && (status.Failed? && !commandFails ==> after.store == e.afterPython)
      && (status.Ok? ==> t.name in after.hashes && after.hashes == h.hashes[t.name := after.hashes[t.name]])
      && (status.Ok? ==> after.store - {HASH_STORE} == StoreLeft(t, h.store, e) - {HASH_STORE})
      && (status.Ok? && env.writable ==> HASH_STORE in after.store && after.store[HASH_STORE] == env.dump(after.hashes))
  {
  }

  /** The store a successful action leaves. */
  function StoreLeft(t: Task, store: Store, e: Effect): Store {
    if t.python then e.afterPython else if t.shell.Some? && t.shell.value != "" then e.afterShell else store
  }

  /* ---------- whole runs ---------- */

  type Tasks = map<string, Task>

  /** The effect of the action of a task, by its position in the run and the store it starts from. */
  type Actions = (nat, string, Store) -> Effect

  function DependencyGraph(tasks: Tasks): Graph {
    map n | n in tasks :: tasks[n].deps
  }

  ghost predicate NamedByKey(tasks: Tasks) {
    forall n <- tasks :: tasks[n].name == n
  }

  /** A run returns its results or, meeting an unregistered name, raises. */
  datatype Outcome = Finished(results: seq<TaskResult>) | KeyError(name: string)

  /** Results already obtained, followed by the rest of the run; an exception loses them. */
  function Prepend(results: seq<TaskResult>, rest: Outcome): Outcome {
    if rest.KeyError? then rest else Finished(results + rest.results)
  }

  lemma {:induction false} PrependLaws(a: seq<TaskResult>, b: seq<TaskResult>, rest: Outcome)
    ensures Prepend([], rest) == rest
    ensures Prepend(a, Finished([])) == Finished(a)
    ensures Prepend(a, Prepend(b, rest)) == Prepend(a + b, rest)
  {
    if rest.Finished? {
      assert [] + rest.results == rest.results;
      assert a + (b + rest.results) == (a + b) + rest.results;
    }
    assert a + [] == a;
  }

  datatype Plan = Plan(env: Env, tasks: Tasks, order: seq<string>, target: string, dry: bool, act: Actions)

  /** The run of order[i..]; once something has failed, only the target is still run. */
  function RunFrom(p: Plan, i: nat, failed: bool, h: Host): (Outcome, Host)
    requires i <= |p.order|
    decreases |p.order| - i
  {
    if i == |p.order| then (Finished([]), h)
    else
      var name := p.order[i];
      if name !in p.tasks then (KeyError(name), h)
      else if failed && name != p.target then RunFrom(p, i + 1, failed, h)
      else
        var (status, h') := RunTask(p.env, p.tasks[name], p.dry, h, p.act(i, name, h.store));
        var (rest, last) := RunFrom(p, i + 1, failed || status.Failed?, h');
        (Prepend([TaskResult(p.tasks[name].name, status)], rest), last)
  }

  /** A run raises exactly when some ordered name is not registered, even one it would have skipped. */
  lemma {:induction false} RaisesIffUnregistered(p: Plan, i: nat, failed: bool, h: Host)
    requires i <= |p.order|
    ensures RunFrom(p, i, failed, h).0.KeyError? <==> exists k :: i <= k < |p.order| && p.order[k] !in p.tasks
    decreases |p.order| - i
  {
    if i < |p.order| && p.order[i] in p.tasks {
      var name := p.order[i];
      if failed && name != p.target {
        RaisesIffUnregistered(p, i + 1, failed, h);
      } else {
        var (status, h') := RunTask(p.env, p.tasks[name], p.dry, h, p.act(i, name, h.store));
        RaisesIffUnregistered(p, i + 1, failed || status.Failed?, h');
      }
    }
  }

  /** A plan whose names are all registered and whose target is the last of them. */
  ghost predicate Runnable(p: Plan) {
    && p.order != [] && Distinct(p.order) && p.order[|p.order| - 1] == p.target
    && forall i | 0 <= i < |p.order| :: p.order[i] in p.tasks && p.tasks[p.order[i]].name == p.order[i]
  }

  /** order[i..] ran up to its first failure; the target alone may follow that. */
  ghost predicate Shape(p: Plan, i: nat, results: seq<TaskResult>)
    requires i <= |p.order|
    decreases |p.order| - i
  {
    if i == |p.order| then results == []
    else
      && results != [] && results[0].name == p.order[i]
      && (if results[0].Good() then Shape(p, i + 1, results[1..])
          else if i + 1 == |p.order| then |results| == 1
          else |results| == 2 && results[1].name == p.target)
  }

  lemma {:induction false} ShapeAt(p: Plan, i: nat, results: seq<TaskResult>, k: nat)
    requires i <= |p.order| && Shape(p, i, results) && k < |results|
    ensures (k == |results| - 1 && results[k].name == p.target)
         || (i + k < |p.order| && results[k].name == p.order[i + k]
             && forall j | 0 <= j < k :: results[j].name == p.order[i + j] && results[j].Good())
    decreases |p.order| - i
  {
    if k > 0 && results[0].Good() {
      ShapeAt(p, i + 1, results[1..], k - 1);
      forall j | 0 <= j < k && k != |results| - 1
        ensures results[j].name == p.order[i + j] && results[j].Good()
      {
        assert j > 0 ==> results[j] == results[1..][j - 1];
      }
    }
  }

  /** After a failure nothing but the last name, the target, is run. */
  lemma {:induction false} AfterFailure(p: Plan, i: nat, h: Host)
    requires i < |p.order| && Runnable(p)
    ensures var r := RunFrom(p, i, true, h).0;
      r.Finished? && |r.results| == 1 && r.results[0].name == p.target
    decreases |p.order| - i
  {
    if i < |p.order| - 1 {
      AfterFailure(p, i + 1, h);
    }
  }

  lemma {:induction false} RunHasShape(p: Plan, i: nat, h: Host)
    requires i <= |p.order| && Runnable(p)
    ensures var r := RunFrom(p, i, false, h).0; r.Finished? && Shape(p, i, r.results)
    decreases |p.order| - i
  {
    if i < |p.order| {
      var name := p.order[i];
      var (status, h') := RunTask(p.env, p.tasks[name], p.dry, h, p.act(i, name, h.store));
      if !status.Failed? {
        RunHasShape(p, i + 1, h');
        var rest := RunFrom(p, i + 1, false, h').0.results;
        assert ([TaskResult(name, status)] + rest)[1..] == rest;
      } else if i < |p.order| - 1 {
        AfterFailure(p, i + 1, h');
      }
    }
  }

  lemma {:induction false} ShapeEndsWithTarget(p: Plan, i: nat, results: seq<TaskResult>)
    requires i < |p.order| && Runnable(p) && Shape(p, i, results)
    ensures results != [] && results[|results| - 1].name == p.target
    decreases |p.order| - i
  {
    if results[0].Good() && i + 1 < |p.order| {
      ShapeEndsWithTarget(p, i + 1, results[1..]);
    }
  }

  lemma {:induction false} RunShape(p: Plan, i: nat, h: Host)
    requires i <= |p.order| && Runnable(p)
    ensures var r := RunFrom(p, i, false, h).0;
      r.Finished? && Shape(p, i, r.results) && (i < |p.order| ==> r.results[|r.results| - 1].name == p.target)
  {
    RunHasShape(p, i, h);
    if i < |p.order| {
      ShapeEndsWithTarget(p, i, RunFrom(p, i, false, h).0.results);
    }
  }

  /** The plan runs a correct order for its target, and every name in it is registered under its own name. */
  ghost predicate WellPlanned(p: Plan) {
    && IsOrderFor(DependencyGraph(p.tasks), [p.target], p.order)
    && forall i | 0 <= i < |p.order| :: p.order[i] in p.tasks && p.tasks[p.order[i]].name == p.order[i]
  }

  /**
   Every result but the target's comes after good results of all the task's dependencies; the target
   is always run, last, whatever happened before.
   */
  lemma {:induction false} DependenciesFirst(p: Plan, h: Host)
    requires WellPlanned(p)
    ensures var r := RunFrom(p, 0, false, h).0;
      && r.Finished? && r.results != [] && r.results[|r.results| - 1].name == p.target
      && forall k, d | 0 <= k < |r.results| && r.results[k].name in p.tasks && r.results[k].name != p.target
                    && d in p.tasks[r.results[k].name].deps ::
           exists j :: 0 <= j < k && r.results[j].name == d && r.results[j].Good()
  {
    var g := DependencyGraph(p.tasks);
    TargetComesLast(g, p.target, p.order);
    RunShape(p, 0, h);
    var results := RunFrom(p, 0, false, h).0.results;
    forall k, d | 0 <= k < |results| && results[k].name in p.tasks && results[k].name != p.target
               && d in p.tasks[results[k].name].deps
      ensures exists j :: 0 <= j < k && results[j].name == d && results[j].Good()
    {
      ShapeAt(p, 0, results, k);
      assert d in Deps(g, p.order[k]);
      var j :| 0 <= j < k && p.order[j] == d;
      assert results[j].name == d;
    }
  }

  /** A task of the run has all its dependencies done well before it. */
  ghost predicate Served(p: Plan, results: seq<TaskResult>, k: nat)
    requires k < |results| && results[k].name in p.tasks
  {
    forall d <- p.tasks[results[k].name].deps :: exists j :: 0 <= j < k && results[j].name == d && results[j].Good()
  }

  lemma {:induction false} AllGoodShape(p: Plan, i: nat, results: seq<TaskResult>)
    requires i < |p.order| && Shape(p, i, results)
    requires forall j | 0 <= j < |results| - 1 :: results[j].Good()
    ensures |results| == |p.order| - i && forall j | 0 <= j < |results| :: results[j].name == p.order[i + j]
    decreases |p.order| - i
  {
    if i + 1 < |p.order| {
      AllGoodShape(p, i + 1, results[1..]);
      forall j | 0 < j < |results|
        ensures results[j].name == p.order[i + j]
      {
        assert results[j] == results[1..][j - 1];
      }
    }
  }

  /** The target needs every task of the order: what it depends on through d does not come after d. */
  lemma {:induction false} NeededThrough(p: Plan, f: nat) returns (d: string)
    requires WellPlanned(p) && f < |p.order| && p.order[f] != p.target
    ensures d in Deps(DependencyGraph(p.tasks), p.target)
    ensures forall k | 0 <= k < |p.order| && p.order[k] == d :: f <= k
  {
    var g := DependencyGraph(p.tasks);
    assert p.order[f] in p.order;
    var n :| n in [p.target] && Reaches(g, n, p.order[f]);
    var path :| IsPath(g, path) && path[0] == n && path[|path| - 1] == p.order[f];
    d := path[1];
    assert path[0 + 1] in Deps(g, path[0]);
    assert IsPath(g, path[1..]);
    forall k | 0 <= k < |p.order| && p.order[k] == d
      ensures f <= k
    {
      ReachesBackwards(g, p.order, k, path[1..]);
    }
  }

  /** The target, which is run whatever happened, is served exactly when every other task of the run went well. */
  lemma {:induction false} TargetServedIff(p: Plan, h: Host)
    requires WellPlanned(p)
    ensures var r := RunFrom(p, 0, false, h).0;
      && r.Finished? && r.results != []
      && var last := |r.results| - 1;
         && r.results[last].name == p.target && p.target in p.tasks
         && (Served(p, r.results, last) <==> forall j | 0 <= j < last :: r.results[j].Good())
  {
    TargetComesLast(DependencyGraph(p.tasks), p.target, p.order);
    RunShape(p, 0, h);
    var results := RunFrom(p, 0, false, h).0.results;
    if forall j | 0 <= j < |results| - 1 :: results[j].Good() {
      AllGoodServes(p, results);
    } else {
      var f :| 0 <= f < |results| - 1 && !results[f].Good();
      FailureUnserves(p, results, f);
    }
  }

  lemma {:induction false} AllGoodServes(p: Plan, results: seq<TaskResult>)
    requires WellPlanned(p) && p.order != [] && p.order[|p.order| - 1] == p.target && Shape(p, 0, results)
    requires forall j | 0 <= j < |results| - 1 :: results[j].Good()
    ensures results != [] && results[|results| - 1].name == p.target && Served(p, results, |results| - 1)
  {
    AllGoodShape(p, 0, results);
    var last := |results| - 1;
    forall d | d in p.tasks[p.target].deps
      ensures exists j :: 0 <= j < last && results[j].name == d && results[j].Good()
    {
      assert d in Deps(DependencyGraph(p.tasks), p.order[last]);
      var j :| 0 <= j < last && p.order[j] == d;
      assert results[j].name == d;
    }
  }

  lemma {:induction false} FailureUnserves(p: Plan, results: seq<TaskResult>, f: nat)
    requires WellPlanned(p) && p.order != [] && p.order[|p.order| - 1] == p.target && Shape(p, 0, results)
    requires f < |results| - 1 && results[|results| - 1].name == p.target && !results[f].Good()
    ensures !Served(p, results, |results| - 1)
  {
    var last := |results| - 1;
    ShapeAt(p, 0, results, f);
    FailureIsLast(p, 0, results, f);
    var d := NeededThrough(p, f);
    if Served(p, results, last) {
      assert d in p.tasks[p.target].deps;
      var j :| 0 <= j < last && results[j].name == d && results[j].Good();
      ShapeAt(p, 0, results, j);
      assert false;
    }
  }

  /** Only the target follows a failure, and the failed task is not the target. */
  lemma {:induction false} FailureIsLast(p: Plan, i: nat, results: seq<TaskResult>, f: nat)
    requires i <= |p.order| && Shape(p, i, results) && f < |results| - 1 && !results[f].Good()
    ensures |results| == f + 2 && i + f < |p.order| - 1 && results[f].name == p.order[i + f]
    decreases |p.order| - i
  {
    if f > 0 {
      FailureIsLast(p, i + 1, results[1..], f - 1);
    }
  }

  /** A dry run changes nothing and reports every task of the order, none as failed or executed. */
  lemma {:induction false} DryRunChangesNothing(p: Plan, i: nat, h: Host)
    requires i <= |p.order| && p.dry && forall k | 0 <= k < |p.order| :: p.order[k] in p.tasks
    ensures var (r, last) := RunFrom(p, i, false, h);
      && r.Finished? && last == h && |r.results| == |p.order| - i
      && forall k | 0 <= k < |r.results| :: r.results[k].status ==
           if IsUpToDate(p.env, p.tasks[p.order[i + k]], h) then UpToDate else Skipped
    decreases |p.order| - i
  {
    if i < |p.order| {
      DryRunChangesNothing(p, i + 1, h);
    }
  }

  /* ---------- incremental runs ---------- */

  predicate SameFile(path: string, before: Store, after: Store) {
    if path in before then path in after && before[path] == after[path] else path !in after
  }

  predicate SameInputs(t: Task, before: Store, after: Store) {
    forall path <- t.inputs :: SameFile(path, before, after)
  }

  lemma {:induction false} SameInputParts(env: Env, inputs: seq<string>, before: Store, after: Store)
    requires forall path <- inputs :: SameFile(path, before, after)
    ensures InputParts(env, inputs, before) == InputParts(env, inputs, after)
  {
    if inputs != [] {
      assert inputs[0] in inputs;
      SameInputParts(env, inputs[1..], before, after);
    }
  }

  /* Detecting changes: the stored hash matches only if the inputs and the command are the same. */

  ghost predicate Plain(parts: seq<string>) {
    forall i | 0 <= i < |parts| :: parts[i] != "" && '|' !in parts[i]
  }

  lemma {:induction false} JoinedIsInjective(a: seq<string>, b: seq<string>)
    requires Plain(a) && Plain(b) && Joined(a) == Joined(b)
    ensures a == b
  {
    if a != [] && b != [] {
      FirstPart(a, b);
      FirstPart(b, a);
      assert Joined(a)[..|a[0]|] == a[0] && Joined(b)[..|b[0]|] == b[0];
      if |a| > 1 && |b| > 1 {
        assert Joined(a)[|a[0]| + 1..] == Joined(a[1..]) && Joined(b)[|b[0]| + 1..] == Joined(b[1..]);
        JoinedIsInjective(a[1..], b[1..]);
      }
      assert a == [a[0]] + a[1..] && b == [b[0]] + b[1..];
    }
  }

  /** The first part of one list does not stop inside the first part of the other. */
  lemma {:induction false} FirstPart(a: seq<string>, b: seq<string>)
    requires a != [] && b != [] && Plain(a) && Plain(b) && Joined(a) == Joined(b)
    ensures |a[0]| >= |b[0]|
  {
    assert |a| > 1 ==> Joined(a)[|a[0]|] == '|';
    assert forall i | 0 <= i < |b[0]| :: Joined(b)[i] == b[0][i];
  }

  ghost predicate NoCollision(env: Env, texts: set<string>, n: nat) {
    forall x <- texts, y <- texts :: env.Digest(x, n) == env.Digest(y, n) ==> x == y
  }

  /** What a task's hash is made of: the text of each input, none for a missing one, and then of the command. */
  function Sources(t: Task, store: Store): seq<Option<string>> {
    InputTexts(t.inputs, store) + if t.HasShell() then [t.shell] else []
  }

  function InputTexts(inputs: seq<string>, store: Store): (texts: seq<Option<string>>)
    ensures |texts| == |inputs|
    ensures forall i | 0 <= i < |inputs| :: texts[i] == if inputs[i] in store then Some(store[inputs[i]]) else None
  {
    if inputs == [] then []
    else [if inputs[0] in store then Some(store[inputs[0]]) else None] + InputTexts(inputs[1..], store)
  }

  function PartOf(env: Env, text: Option<string>): string {
    if text.None? then "missing" else env.Digest(text.value, 8)
  }

  ghost predicate HexDigests(env: Env) {
    forall text :: |env.sha(text)| >= 8 && '|' !in env.sha(text)
  }

  lemma {:induction false} InputPartsAt(env: Env, inputs: seq<string>, store: Store)
    ensures |InputParts(env, inputs, store)| == |inputs|
    ensures forall i | 0 <= i < |inputs| ::
      InputParts(env, inputs, store)[i] == PartOf(env, InputTexts(inputs, store)[i])
  {
    if inputs != [] {
      InputPartsAt(env, inputs[1..], store);
    }
  }

  lemma {:induction false} PartsOfSources(env: Env, t: Task, store: Store)
    ensures |HashedParts(env, t, store)| == |Sources(t, store)|
    ensures forall i | 0 <= i < |Sources(t, store)| ::
      HashedParts(env, t, store)[i] == PartOf(env, Sources(t, store)[i])
    ensures HexDigests(env) ==> Plain(HashedParts(env, t, store))
  {
    InputPartsAt(env, t.inputs, store);
  }

  lemma {:induction false} EqualPartsEqualTexts(env: Env, a: Option<string>, b: Option<string>, texts: set<string>)
    requires HexDigests(env) && NoCollision(env, texts, 8)
    requires (a.Some? ==> a.value in texts) && (b.Some? ==> b.value in texts)
    requires PartOf(env, a) == PartOf(env, b)
    ensures a == b
  {
    assert |"missing"| == 7;
  }

  function TextsOf(sources: seq<Option<string>>): set<string> {
    set s <- sources | s.Some? :: s.value
  }

  /**
   Where the digest does not collide on the texts at hand, two tasks, or a task at two times, hash the same
   exactly when the texts of their inputs and command are the same row; the names of the inputs play no
   part, nor does the border between inputs and command.
   */
  lemma {:induction false} HashDetectsChanges(env: Env, was: Task, t: Task, before: Store, after: Store)
    requires HexDigests(env) && NoCollision(env, TextsOf(Sources(was, before)) + TextsOf(Sources(t, after)), 8)
    requires NoCollision(env, {Joined(HashedParts(env, was, before)), Joined(HashedParts(env, t, after))}, 16)
    ensures InputHash(env, was, before) == InputHash(env, t, after) <==> Sources(was, before) == Sources(t, after)
  {
    var old', new' := HashedParts(env, was, before), HashedParts(env, t, after);
    PartsOfSources(env, was, before);
    PartsOfSources(env, t, after);
    if InputHash(env, was, before) == InputHash(env, t, after) {
      JoinedIsInjective(old', new');
      var texts := TextsOf(Sources(was, before)) + TextsOf(Sources(t, after));
      forall i | 0 <= i < |Sources(t, after)|
        ensures Sources(was, before)[i] == Sources(t, after)[i]
      {
        assert Sources(was, before)[i] in Sources(was, before) && Sources(t, after)[i] in Sources(t, after);
        EqualPartsEqualTexts(env, Sources(was, before)[i], Sources(t, after)[i], texts);
      }
    }
    assert Sources(was, before) == Sources(t, after) ==> old' == new';
  }

  /** For a task whose input names stay the same, that means: the same files and the same command. */
  lemma {:induction false} SourcesSameIff(was: Task, t: Task, before: Store, after: Store)
    requires was.inputs == t.inputs
    ensures Sources(was, before) == Sources(t, after)
      <==> SameInputs(t, before, after) && was.HasShell() == t.HasShell() && (t.HasShell() ==> was.shell == t.shell)
  {
    InputsSameIff(t, before, after);
    var n := |t.inputs|;
    if Sources(was, before) == Sources(t, after) {
      assert InputTexts(t.inputs, before) == Sources(was, before)[..n] == InputTexts(t.inputs, after);
      assert t.HasShell() && was.HasShell() ==> Sources(was, before)[n] == Sources(t, after)[n];
    }
  }

  lemma {:induction false} InputsSameIff(t: Task, before: Store, after: Store)
    ensures InputTexts(t.inputs, before) == InputTexts(t.inputs, after) <==> SameInputs(t, before, after)
  {
    assert forall i | 0 <= i < |t.inputs| :: t.inputs[i] in t.inputs;
    if InputTexts(t.inputs, before) == InputTexts(t.inputs, after) {
      forall path | path in t.inputs
        ensures SameFile(path, before, after)
      {
        var i :| 0 <= i < |t.inputs| && t.inputs[i] == path;
        assert InputTexts(t.inputs, before)[i] == InputTexts(t.inputs, after)[i];
      }
    }
  }

  /** A text that moves from an input to the command, or back, is not noticed. */
  lemma {:induction false} MovedTextIsMissed(env: Env, t: Task, text: string)
    requires text != ""
    ensures InputHash(env, t.(inputs := ["/a"], shell := None), map["/a" := text])
         == InputHash(env, t.(inputs := [], shell := Some(text)), map[])
  {
    var store: Store := map["/a" := text];
    assert InputParts(env, ["/a"], store) == [env.Digest(text, 8)];
    assert HashedParts(env, t.(inputs := ["/a"], shell := None), store) == [env.Digest(text, 8)];
    assert HashedParts(env, t.(inputs := [], shell := Some(text)), map[]) == [env.Digest(text, 8)];
  }

  /** The digest does not collide on what a task's hash was made of and what another's is made of. */
  ghost predicate CanTell(env: Env, was: Task, before: Store, t: Task, after: Store) {
    && HexDigests(env)
    && NoCollision(env, TextsOf(Sources(was, before)) + TextsOf(Sources(t, after)), 8)
    && NoCollision(env, {Joined(HashedParts(env, was, before)), Joined(HashedParts(env, t, after))}, 16)
  }

  ghost predicate HasRecord(env: Env, hashes: map<string, string>, name: string, was: Task, before: Store) {
    name in hashes && hashes[name] != "" && hashes[name] == InputHash(env, was, before)
  }

  lemma {:induction false} TurnRecords(env: Env, t: Task, h: Host, e: Effect)
    requires (forall text :: env.sha(text) != "") && RunTask(env, t, false, h, e).0.Ok?
    ensures HasRecord(env, RunTask(env, t, false, h, e).1.hashes, t.name, t, StoreLeft(t, h.store, e))
  {
  }

  lemma {:induction false} RecordDecides(env: Env, t: Task, dry: bool, h: Host, e: Effect, was: Task, before: Store)
    requires HasRecord(env, h.hashes, t.name, was, before) && !t.phony
    ensures RunTask(env, t, dry, h, e).0.UpToDate? <==> InputHash(env, was, before) == InputHash(env, t, h.store)
  {
  }

  /**
   Once a task has been run and recorded, a later turn reports it as up to date exactly if the texts of its inputs
   and command are then what the action left, whatever else has happened in between.
   */
  lemma {:induction false} UpToDateIffUnchanged(env: Env, was: Task, h: Host, e: Effect,
                                                t: Task, dry: bool, later: Host, e': Effect)
    requires RunTask(env, was, false, h, e).0.Ok? && t.name == was.name && !t.phony
    requires var recorded := RunTask(env, was, false, h, e).1;
      t.name in later.hashes && later.hashes[t.name] == recorded.hashes[t.name]
    requires CanTell(env, was, StoreLeft(was, h.store, e), t, later.store)
    ensures RunTask(env, t, dry, later, e').0.UpToDate?
      <==> Sources(was, StoreLeft(was, h.store, e)) == Sources(t, later.store)
  {
    TurnRecords(env, was, h, e);
    RecordDecides(env, t, dry, later, e', was, StoreLeft(was, h.store, e));
    HashDetectsChanges(env, was, t, StoreLeft(was, h.store, e), later.store);
  }

  /** A task is settled when it is phony or up to date. */
  predicate Settled(env: Env, t: Task, h: Host) {
    t.phony || IsUpToDate(env, t, h)
  }

  lemma {:induction false} StaysSettled(env: Env, t: Task, before: Host, after: Host)
    requires Settled(env, t, before) && SameInputs(t, before.store, after.store)
    requires t.name in before.hashes ==> t.name in after.hashes && after.hashes[t.name] == before.hashes[t.name]
    ensures Settled(env, t, after)
  {
    SameInputParts(env, t.inputs, before.store, after.store);
  }

  /** Digests are never empty, and no task reads the file the hashes are saved in. */
  ghost predicate SoundHashing(p: Plan) {
    && (forall text :: p.env.sha(text) != "")
    && forall i | 0 <= i < |p.order| && p.order[i] in p.tasks :: HASH_STORE !in p.tasks[p.order[i]].inputs
  }

  lemma {:induction false} ExecutedTaskIsSettled(p: Plan, t: Task, h: Host, e: Effect)
    requires forall text :: p.env.sha(text) != ""
    requires HASH_STORE !in t.inputs && !RunTask(p.env, t, false, h, e).0.Failed?
    ensures Settled(p.env, t, RunTask(p.env, t, false, h, e).1)
  {
    if !IsUpToDate(p.env, t, h) {
      var (_, store) := Perform(t, h.store, e);
      var last := MarkDone(p.env, t, Host(h.hashes, store));
      SameInputParts(p.env, t.inputs, store, last.store);
    }
  }

  /** From the host h on, no step of the run changes a file that an earlier task of the order, not phony, reads. */
  ghost predicate LeavesEarlierInputs(p: Plan, i: nat, h: Host)
    requires i <= |p.order| && forall k | 0 <= k < |p.order| :: p.order[k] in p.tasks
    decreases |p.order| - i
  {
    i == |p.order| ||
    var h' := RunTask(p.env, p.tasks[p.order[i]], p.dry, h, p.act(i, p.order[i], h.store)).1;
    && (forall j | 0 <= j < i && !p.tasks[p.order[j]].phony :: SameInputs(p.tasks[p.order[j]], h.store, h'.store))
    && LeavesEarlierInputs(p, i + 1, h')
  }

  /** A run in which everything goes well leaves every task of the order settled. */
  lemma {:induction false} GoodRunSettles(p: Plan, i: nat, h: Host)
    requires Runnable(p) && SoundHashing(p) && !p.dry && i <= |p.order| && LeavesEarlierInputs(p, i, h)
    requires forall j | 0 <= j < i :: Settled(p.env, p.tasks[p.order[j]], h)
    requires var r := RunFrom(p, i, false, h).0; r.Finished? && forall x <- r.results :: x.Good()
    ensures forall j | 0 <= j < |p.order| :: Settled(p.env, p.tasks[p.order[j]], RunFrom(p, i, false, h).1)
    decreases |p.order| - i
  {
    if i < |p.order| {
      var name := p.order[i];
      var e := p.act(i, name, h.store);
      var (status, h') := RunTask(p.env, p.tasks[name], false, h, e);
      var r, rest := RunFrom(p, i, false, h).0, RunFrom(p, i + 1, status.Failed?, h').0;
      assert r.results == [TaskResult(name, status)] + rest.results;
      assert r.results[0] in r.results;
      forall x | x in rest.results
        ensures x.Good()
      {
        assert x in r.results;
      }
      ExecutedTaskIsSettled(p, p.tasks[name], h, e);
      forall j | 0 <= j < i
        ensures Settled(p.env, p.tasks[p.order[j]], h')
      {
        if !p.tasks[p.order[j]].phony {
          StaysSettled(p.env, p.tasks[p.order[j]], h, h');
        }
      }
      GoodRunSettles(p, i + 1, h');
    }
  }

  /** A task that, as things stand, the run will come to: after a failure that is the target only. */
  predicate Due(p: Plan, failed: bool, name: string) {
    !failed || name == p.target
  }

  /** From the host h on, no step the run makes changes a file that a task then still due, not phony, reads. */
  ghost predicate LeavesLaterInputs(p: Plan, i: nat, failed: bool, h: Host)
    requires i <= |p.order| && forall k | 0 <= k < |p.order| :: p.order[k] in p.tasks
    decreases |p.order| - i
  {
    i == |p.order| ||
    if !Due(p, failed, p.order[i]) then LeavesLaterInputs(p, i + 1, failed, h)
    else
      var (status, h') := RunTask(p.env, p.tasks[p.order[i]], p.dry, h, p.act(i, p.order[i], h.store));
      && (forall j | i < j < |p.order| && Due(p, failed || status.Failed?, p.order[j]) && !p.tasks[p.order[j]].phony ::
           SameInputs(p.tasks[p.order[j]], h.store, h'.store))
      && LeavesLaterInputs(p, i + 1, failed || status.Failed?, h')
  }

  /** Once every task that is due is settled, a run executes nothing but phony tasks. */
  lemma {:induction false} SettledRunIsPhony(p: Plan, i: nat, failed: bool, h: Host)
    requires Runnable(p) && i <= |p.order| && LeavesLaterInputs(p, i, failed, h)
    requires forall j | i <= j < |p.order| && Due(p, failed, p.order[j]) :: Settled(p.env, p.tasks[p.order[j]], h)
    ensures var r := RunFrom(p, i, failed, h).0;
      r.Finished? && forall x <- r.results :: x.name in p.tasks && (x.status.UpToDate? <==> !p.tasks[x.name].phony)
    decreases |p.order| - i
  {
    if i < |p.order| {
      var name := p.order[i];
      var (status, h') := RunTask(p.env, p.tasks[name], p.dry, h, p.act(i, name, h.store));
      if failed && name != p.target {
        SettledRunIsPhony(p, i + 1, failed, h);
      } else {
        forall j | i < j < |p.order| && Due(p, failed || status.Failed?, p.order[j])
          ensures Settled(p.env, p.tasks[p.order[j]], h')
        {
          if !p.tasks[p.order[j]].phony {
            StaysSettled(p.env, p.tasks[p.order[j]], h, h');
          }
        }
        SettledRunIsPhony(p, i + 1, failed || status.Failed?, h');
      }
    }
  }

  lemma {:induction false} PlannedIsRunnable(p: Plan)
    requires WellPlanned(p)
    ensures Runnable(p)
  {
    TargetComesLast(DependencyGraph(p.tasks), p.target, p.order);
  }

  lemma {:induction false} SettledInAnyOrder(p: Plan, again: Plan, last: Host)
    requires WellPlanned(p) && WellPlanned(again)
    requires again.env == p.env && again.tasks == p.tasks && again.target == p.target
    requires forall j | 0 <= j < |p.order| :: Settled(p.env, p.tasks[p.order[j]], last)
    ensures forall j | 0 <= j < |again.order| :: Settled(again.env, again.tasks[again.order[j]], last)
  {
    forall j | 0 <= j < |again.order|
      ensures Settled(again.env, again.tasks[again.order[j]], last)
    {
      assert again.order[j] in again.order;
      assert again.order[j] in p.order;
    }
  }

  /**
   After a run in which every task went well and no step changed what an earlier task had read, a second run of
   the same target executes exactly the phony tasks, in whatever valid order it takes, as long as none of them
   changes what a task still due after it reads.
   */
  lemma {:induction false} SecondRunExecutesOnlyPhony(p: Plan, h: Host, again: Plan)
    requires WellPlanned(p) && SoundHashing(p) && !p.dry
    requires WellPlanned(again) && again.env == p.env && again.tasks == p.tasks && again.target == p.target
    requires LeavesEarlierInputs(p, 0, h) && LeavesLaterInputs(again, 0, false, RunFrom(p, 0, false, h).1)
    requires AllWentWell(RunFrom(p, 0, false, h).0)
    ensures var r := RunFrom(again, 0, false, RunFrom(p, 0, false, h).1).0;
      r.Finished? && forall x <- r.results :: x.name in p.tasks && (x.status.UpToDate? <==> !p.tasks[x.name].phony)
  {
    var last := RunFrom(p, 0, false, h).1;
    PlannedIsRunnable(p);
    PlannedIsRunnable(again);
    GoodRunSettles(p, 0, h);
    SettledInAnyOrder(p, again, last);
    SettledRunIsPhony(again, 0, false, last);
  }

  /* ---------- a task's turn in a run ---------- */

  /** Whether something has failed, and the host, when the run of order[i..] comes to the k-th name. */
  function Reached(p: Plan, i: nat, failed: bool, h: Host, k: nat): (bool, Host)
    requires i <= k < |p.order| && forall j | 0 <= j < |p.order| :: p.order[j] in p.tasks
    decreases k - i
  {
    if i == k then (failed, h)
    else if !Due(p, failed, p.order[i]) then Reached(p, i + 1, failed, h, k)
    else
      var (status, h') := RunTask(p.env, p.tasks[p.order[i]], p.dry, h, p.act(i, p.order[i], h.store));
      Reached(p, i + 1, failed || status.Failed?, h', k)
  }

  /** What a turn taken at this host reports. */
  function TurnStatus(p: Plan, k: nat, g: Host): Status
    requires k < |p.order| && p.order[k] in p.tasks
  {
    RunTask(p.env, p.tasks[p.order[k]], p.dry, g, p.act(k, p.order[k], g.store)).0
  }

  lemma {:induction false} NamesFrom(p: Plan, i: nat, failed: bool, h: Host)
    requires Runnable(p) && i <= |p.order|
    ensures var r := RunFrom(p, i, failed, h).0; r.Finished? && forall x <- r.results :: x.name in p.order[i..]
    decreases |p.order| - i
  {
    if i < |p.order| {
      var name := p.order[i];
      assert p.order[i..] == [name] + p.order[i + 1..];
      if failed && name != p.target {
        NamesFrom(p, i + 1, failed, h);
      } else {
        var (status, h') := RunTask(p.env, p.tasks[name], p.dry, h, p.act(i, name, h.store));
        NamesFrom(p, i + 1, failed || status.Failed?, h');
      }
    }
  }

  /** A task that is due when the run comes to it has its one result, which is what its turn reports. */
  lemma {:induction false} ResultAtTurn(p: Plan, i: nat, failed: bool, h: Host, k: nat, x: TaskResult)
    requires Runnable(p) && i <= k < |p.order| && x.name == p.order[k]
    requires Due(p, Reached(p, i, failed, h, k).0, p.order[k])
    ensures var r := RunFrom(p, i, failed, h).0;
      r.Finished? && (x in r.results <==> x.status == TurnStatus(p, k, Reached(p, i, failed, h, k).1))
    decreases k - i
  {
    var name := p.order[i];
    if !Due(p, failed, name) {
      ResultAtTurn(p, i + 1, failed, h, k, x);
    } else {
      var (status, h') := RunTask(p.env, p.tasks[name], p.dry, h, p.act(i, name, h.store));
      var rest := RunFrom(p, i + 1, failed || status.Failed?, h').0;
      NamesFrom(p, i + 1, failed || status.Failed?, h');
      assert RunFrom(p, i, failed, h).0 == Finished([TaskResult(name, status)] + rest.results);
      if i == k {
        assert name !in p.order[i + 1..];
      } else {
        ResultAtTurn(p, i + 1, failed || status.Failed?, h', k, x);
      }
    }
  }

  lemma {:induction false} ReachedKeepsRecord(p: Plan, i: nat, failed: bool, h: Host, k: nat)
    requires Runnable(p) && i <= k < |p.order| && p.order[k] in h.hashes
    ensures var g := Reached(p, i, failed, h, k).1;
      p.order[k] in g.hashes && g.hashes[p.order[k]] == h.hashes[p.order[k]]
    decreases k - i
  {
    if i < k {
      if !Due(p, failed, p.order[i]) {
        ReachedKeepsRecord(p, i + 1, failed, h, k);
      } else {
        var (status, h') := RunTask(p.env, p.tasks[p.order[i]], p.dry, h, p.act(i, p.order[i], h.store));
        ReachedKeepsRecord(p, i + 1, failed || status.Failed?, h', k);
      }
    }
  }

  lemma {:induction false} RecordedThenDue(p: Plan, h: Host, k: nat, was: Task, before: Store)
    requires Runnable(p) && k < |p.order| && !p.tasks[p.order[k]].phony
    requires HasRecord(p.env, h.hashes, p.order[k], was, before)
    requires CanTell(p.env, was, before, p.tasks[p.order[k]], Reached(p, 0, false, h, k).1.store)
    ensures var g := Reached(p, 0, false, h, k).1;
      TurnStatus(p, k, g).UpToDate? <==> Sources(was, before) == Sources(p.tasks[p.order[k]], g.store)
  {
    ReachedKeepsRecord(p, 0, false, h, k);
    var t, g := p.tasks[p.order[k]], Reached(p, 0, false, h, k).1;
    RecordDecides(p.env, t, p.dry, g, p.act(k, p.order[k], g.store), was, before);
    HashDetectsChanges(p.env, was, t, before, g.store);
  }

  /**
   After a run in which every task went well, files and commands may change at will: when its turn comes in the next
   run, a task of both runs is reported as up to date exactly if the texts of its inputs and command are what they
   were at the end of the first run, and is executed otherwise.
   */
  lemma {:induction false} ChangedTaskIsExecuted(p: Plan, h: Host, last: Host, again: Plan, next: Host, k: nat)
    requires Runnable(p) && SoundHashing(p) && !p.dry && LeavesEarlierInputs(p, 0, h)
    requires AllWentWell(RunFrom(p, 0, false, h).0) && last == RunFrom(p, 0, false, h).1
    requires Runnable(again) && again.env == p.env && next.hashes == last.hashes
    requires k < |again.order| && again.order[k] in p.order
    requires !p.tasks[again.order[k]].phony && !again.tasks[again.order[k]].phony
    requires CanTell(p.env, p.tasks[again.order[k]], last.store,
                     again.tasks[again.order[k]], Reached(again, 0, false, next, k).1.store)
    ensures var g := Reached(again, 0, false, next, k).1;
      TurnStatus(again, k, g).UpToDate? <==>
      Sources(p.tasks[again.order[k]], last.store) == Sources(again.tasks[again.order[k]], g.store)
  {
    RecordedAtEnd(p, h, last, again.order[k]);
    RecordedThenDue(again, next, k, p.tasks[again.order[k]], last.store);
  }

  ghost predicate AllWentWell(r: Outcome) {
    r.Finished? && forall x <- r.results :: x.Good()
  }

  lemma {:induction false} RecordedAtEnd(p: Plan, h: Host, last: Host, name: string)
    requires Runnable(p) && SoundHashing(p) && !p.dry && LeavesEarlierInputs(p, 0, h)
    requires AllWentWell(RunFrom(p, 0, false, h).0) && last == RunFrom(p, 0, false, h).1
    requires name in p.order && !p.tasks[name].phony
    ensures HasRecord(p.env, last.hashes, name, p.tasks[name], last.store)
  {
    GoodRunSettles(p, 0, h);
    var j :| 0 <= j < |p.order| && p.order[j] == name;
    assert Settled(p.env, p.tasks[p.order[j]], last);
  }

  /* ---------- the build system ---------- */

  class BuildSystem {
    const env: Env
    var tasks: Tasks
    var defaultTask: Option<string>
    var hashes: map<string, string>
    var store: Store

    function Current(): Host
      reads this
    {
      Host(hashes, store)
    }

    method Register(t: Task)
      requires NamedByKey(tasks)
      modifies `tasks
      ensures NamedByKey(tasks) && tasks == old(tasks)[t.name := t]
    {
      tasks := tasks[t.name := t];
    }

    /** Runs one task from the current host; e is what its action would do. */
    method RunOne(t: Task, dry: bool, e: Effect) returns (status: Status)
      modifies `hashes, `store
      ensures (status, Current()) == RunTask(env, t, dry, old(Current()), e)
    {
      if IsUpToDate(env, t, Current()) {
        return UpToDate;
      }
      if dry {
        return Skipped;
      }
      if t.HasShell() {
        store := e.afterShell;
        if e.shell != Exit(0) {
          return Failed;
        }
      }
      if t.python {
        store := e.afterPython;
        if !e.pythonOk {
          return Failed;
        }
      }
      hashes := hashes[t.name := InputHash(env, t, store)];
      if env.writable {
        store := store[HASH_STORE := env.dump(hashes)];
      }
      return Ok;
    }

    /** Runs the order one name at a time. */
    method RunOrder(p: Plan) returns (outcome: Outcome)
      requires p.env == env && p.tasks == tasks
      modifies `hashes, `store
      ensures (outcome, Current()) == RunFrom(p, 0, false, old(Current()))
    {
      var results: seq<TaskResult> := [];
      var failed := false;
      PrependLaws([], [], RunFrom(p, 0, false, Current()).0);
      for i := 0 to |p.order|
        invariant var (rest, last) := RunFrom(p, i, failed, Current());
          RunFrom(p, 0, false, old(Current())) == (Prepend(results, rest), last)
      {
        var name := p.order[i];
        if name !in tasks {
          return KeyError(name);
        }
        if !failed || name == p.target {
          var status := RunOne(tasks[name], p.dry, p.act(i, name, store));
          failed := failed || status.Failed?;
          PrependLaws(results, [TaskResult(tasks[name].name, status)], RunFrom(p, i + 1, failed, Current()).0);
          results := results + [TaskResult(tasks[name].name, status)];
        }
      }
      PrependLaws(results, [], Finished([]));
      return Finished(results);
    }

    /** Runs the target (or the default) after everything it depends on. */
    method Run(target: Option<string>, dry: bool, act: Actions) returns (outcome: Outcome)
      modifies `hashes, `store
      ensures var named := if target.Some? && target.value != "" then target else defaultTask;
        if named.None? || named.value == "" || named.value !in tasks || CycleFrom(DependencyGraph(tasks), [named.value])
        then outcome == Finished([]) && Current() == old(Current())
        else exists order ::
          && IsOrderFor(DependencyGraph(tasks), [named.value], order)
          && (outcome, Current()) == RunFrom(Plan(env, tasks, order, named.value, dry, act), 0, false, old(Current()))
    {
      var named := if target.Some? && target.value != "" then target else defaultTask;
      if named.None? || named.value == "" || named.value !in tasks {
        return Finished([]);
      }
      var order := Toposort(DependencyGraph(tasks), [named.value]);
      if order.Circular? {
        return Finished([]);
      }
      outcome := RunOrder(Plan(env, tasks, order.names, named.value, dry, act));
    }
  }
}
