# Verified models of PyOS NOVA's algorithms

Dafny models of the algorithms and protocols inside PyOS NOVA that have state worth reasoning about, with
proofs about every input, run or interleaving. One module models one component, in the form the component has:
classes and loops where the Python updates objects step by step, datatypes and functions where it computes.

| module | component | main results |
|---|---|---|
| `Crdt` | alias replication, `net/crdt.py` | strong eventual consistency over all runs, filtered and cut-off exchanges included; when a write, a pull or an exchange loses nothing |
| `TaskOrder`, `Build`, `Graphs` | build system, `runtime/build.py` | topological order exists iff no cycle is reachable; dependencies first; change detection by hash; incremental second run |
| `Pipeline` | CI job runner, `runtime/ci.py` | jobs completed are the least fixed point, characterised by the needs graph; a run passes iff all can run and succeed |
| `Text`, `Edits`, `Buffer` | editor buffer, `apps/helix.py` | the line buffer refines a flat text with an offset; what undo and redo restore |
| `Tokens` | tokenizers, `apps/helix.py` | lossless and fully determined; strings end at the first unescaped quote |
| `RateLimit` | token buckets, `net/resilience.py` | window bounds over all interleaved runs, per bucket and per address; when the overall limit holds |
| `CircuitBreaker` | breaker, `net/resilience.py` | closed iff below the threshold under any interleaving; invocation bounds for a failing function |
| `Watchdog` | subsystem watchdog, `kernel/watchdog.py` | restart budget, back-off between restarts, quarantine within 19 polls and no fewer |
| `TwoPhase` | two-phase commit, `net/innovations.py` | store equals the replay of committed transactions; verdict read off the run; final decisions stick |
| `Context` | conversation window, `ai/context.py` | eviction and selection each characterised up to uniqueness |
| `FatImage` | FAT32 builder, `boot/nova_vm.py` | disjoint chains, files read back along them, exact fit condition, geometry |
| `EfiImage` | PE32+ writer, `boot/efi_builder.py` | what is written loads again; the stub addresses its message |
| `VpnPacket` | packet codec, `net/platform.py` | encryption and decryption are exact inverses |
| `Namespaces` | mounts, `kernel/namespaces.py` | what a directory lists against what resolves, both directions |
| `Quantiser` | update compression, `ai/federated.py` | half-step error, order kept, quantising again changes nothing |

Time, hash functions, network answers, subprocess results, health checks and character classes are parameters.
A state machine is a function on values (`Step`, `Apply`, `Run`, ...); the class method for the same operation is
proved to compute that function, and the lemmas say what runs of the function mean.

## Where code and documentation disagree

The models follow the code. For each of the following a lemma gives the condition under which the code does meet
the promise, or how far it falls short on every input; where it says so, another gives a run that fails.

- A half-open breaker is documented to let one probe through; it lets every call through exactly until one reports
  or the breaker is reset (`CircuitBreaker.ProbesOverlap`; a run in `CircuitBreaker.TwoProbes`).
- Quarantine is documented for failed restarts; successful ones use up the same budget, and after five of them a
  subsystem is quarantined exactly when three or more checks in a row have failed outside the back-off
  (`Watchdog.SuccessfulRestartsCount`; a run in which every restart works in
  `Watchdog.QuarantinedWithoutFailedRestart`).
- A filtered CI run is documented to run the job with its dependencies; they are dropped, and the job runs exactly
  if it has none (`Pipeline.FilteredJobRunsIffNoNeeds`). A skipped need does not skip its dependants
  (`Pipeline.SkippedIffNeedFailed`).
- A build target is run even after its dependencies failed; they all went well exactly if every other task of the
  run did (`Build.TargetServedIff`). A text that moves between the inputs and the command of a task goes unnoticed
  (`Build.HashDetectsChanges`, `Build.MovedTextIsMissed`).
- "Commit if all participants voted yes": an unprepared transaction commits without a vote
  (`TwoPhase.CommitNeedsVotesIffPrepared`), and a no is lost when its node is asked twice
  (`TwoPhase.VotesAreFaithfulIff`).
- A replacing mount hides a path it covers exactly if its source has something in that place
  (`Namespaces.HiddenIff`), yet it cuts short the listings of all directories, also those it does not cover
  (`Namespaces.ReplaceListsIff`).
- The first file with data on a FAT image is given the root directory's cluster (`FatImage.RootClusterIsFreeIff`,
  `FatImage.FileAtRootClusterIff`), and cluster data is assigned to a slice of the wrong length
  (`FatImage.ImageKeepsLengthIff`, `FatImage.BuildKeepsLengthIff`).
- A snapshot is taken before each edit and undo goes to its parent, so that undo takes back the last two edits
  rather than the last one, and lags one edit behind from then on (`Buffer.EditThenUndo`, `Buffer.EditsThenUndos`).
- A delta filtered by write time can leave out a relayed register (`Crdt.FilteredPullIsFull`; a run in
  `Crdt.RelayedRegisterIsLost`), and a pull that was cut off is not always made up for (`Crdt.CutPullIsRepairedIff`;
  a run in `Crdt.CutPullIsLost`).
- The global rate limit is not kept when calls that passed the global bucket earlier are still under way: from a
  given moment on it holds exactly if they and the tokens then in the bucket fit in it together
  (`RateLimit.OverallLimitHoldsIff`; a run in `RateLimit.WaitingCallsAreAdmitted`).
- A message of no tokens is dropped from a prompt when the budget is exactly used up
  (`Context.EverythingSelectedIff`).

## Model

| member | source | states |
|---|---|---|
| `Crdt.MergeLaws` | net/crdt.py:68-82 | merging two registers is idempotent and associative, and commutative exactly when equal stamps mean equal registers |
| `Crdt.StampsAreOrdered` | net/crdt.py:76-82 | "newer" by (timestamp, node id) is a total order on stamps |
| `Crdt.LaterWins` | net/crdt.py:76-82 | the merge keeps the later write, and of two at one time that of the node with the greater name |
| `Crdt.DeliveryIsJoin` | net/crdt.py:215-239 | receiving a delta in any order, with any repetition, is the pointwise newest of both tables |
| `Crdt.JoinIsDetermined` | net/crdt.py:154-184 | with unique stamps the set of registers received determines the table |
| `Crdt.WriteKeepsJoin` | net/crdt.py:141-152 | a local write, which overwrites without comparing, keeps the table the newest of all seen iff its stamp is not below the one it replaces |
| `Crdt.FullExchange` | net/crdt.py:215-252 | one pull and push leaves both nodes at the join iff no path carries two registers under one stamp |
| `Crdt.FilteredPullIsFull` | net/crdt.py:186-198 | the time filter loses nothing iff every older register of the peer is already matched here |
| `Crdt.CutPullIsRepairedIff` | net/crdt.py:215-256 | the pull after one that was cut off makes up for it iff every register that did not arrive is newer than the recorded time, or not news |
| `Crdt.RelayedRegisterIsLost` | net/crdt.py:186-252 | a run of four steps after which a relayed write is missing from a node whose filtered pull came after its arrival at the peer |
| `Crdt.CutPullIsLost` | net/crdt.py:215-256 | a run of three steps in which a register lost to a cut pull is missing after the next pull |
| `Crdt.WriteIsUnique` | net/crdt.py:141-152 | a local write whose stamp exceeds the register it replaces has a stamp no earlier write to the path has |
| `Crdt.Convergence` | net/crdt.py:52-252 | at every point of every run of writes and of deliveries of any list of registers already written, stamps are unique, each table is the newest of what its node wrote or received, and nodes with equal histories are equal |
| `Crdt.LatestIsHeld` | net/crdt.py:141-184 | at every point of every run no register a node has written or received is later than the one it holds for the path |
| `Crdt.ExportsCanArrive` | net/crdt.py:186-239 | every export of every run, from any time on and cut off anywhere, is among the deliveries at every later point of the run |
| `Crdt.ArrivalKeepsJoin` | net/crdt.py:154-239 | whatever list of registers arrives, in any order, repeated or cut off, the table stays the newest of all that was received |
| `Crdt.FullExchangeInRun` | net/crdt.py:200-252 | in any run, two nodes that exchange from time 0 both end at the join of their tables |
| `Crdt.ConflictsAreRejections` | net/crdt.py:232-236 | the conflict count of a delta is the number of paths the receiver already had as new |
| `Crdt.DeltaIsJoined` | net/crdt.py:215-239 | an exported delta, merged one by one, is joined, and its conflicts are the rejected paths |
| `Crdt.CRDTStore.constructor` | net/crdt.py:125-139 | at start every alias becomes a register under this node's clock and the alias table shows the registers |
| `Crdt.CRDTStore.RecordWrite` | net/crdt.py:141-152 | the register of the path is replaced without comparison |
| `Crdt.CRDTStore.MergeRegister` | net/crdt.py:154-184 | accepts exactly newer registers; the alias table follows unless aliasing fails |
| `Crdt.CRDTStore.ExportDelta` | net/crdt.py:186-198 | lists exactly the registers written since the given time, each path once |
| `Crdt.CRDTStore.MergeDelta` | net/crdt.py:218-236 | merges any list of registers in order and counts those not accepted |
| `Crdt.CRDTStore.Pull` | net/crdt.py:215-240 | merges the peer's delta up to where the request breaks off, with the statistics of that part |
| `Crdt.CRDTStore.Push` | net/crdt.py:242-252 | the peer ends with the join of its table and the registers written here since the time |
| `Crdt.CRDTStore.SyncWithPeer` | net/crdt.py:200-258 | both tables, the statistics and the recorded time after an exchange, for a pull cut off anywhere and each outcome of the push |
| `TaskOrder.ReturnIsCycle` | runtime/build.py:188-193 | meeting a name of the current path closes a dependency cycle |
| `TaskOrder.LogIsOrder` | runtime/build.py:188-204 | finishing every requested name, each after its dependencies, gives an order of the reachable names and rules out cycles |
| `TaskOrder.OrderListsFirst` | runtime/build.py:188-204 | in an order each name stands once and behind everything it lists |
| `TaskOrder.Sorter.Visit` | runtime/build.py:188-200 | a visit terminates, finishes everything below the name in dependency order, or returns a name on a cycle |
| `TaskOrder.Sorter.VisitAll` | runtime/build.py:188-204 | names visited in turn are all finished, or the first cycle met is returned |
| `TaskOrder.Toposort` | runtime/build.py:175-204 | returns an order iff no cycle is reachable; the order is the reachable set, each name once and behind all it lists; otherwise names a task on a reachable cycle |
| `TaskOrder.TargetComesLast` | runtime/build.py:201-204 | a single requested task is ordered last |
| `Build.RaisesIffUnregistered` | runtime/build.py:308-319 | a run raises iff some ordered name is not registered |
| `Build.TurnOutcome` | runtime/build.py:222-277 | when a turn fails, what it records and what it leaves in the store, in terms of the exit code and the function's outcome |
| `Build.AfterFailure` | runtime/build.py:308-319 | after a failure only the target is still run |
| `Build.DependenciesFirst` | runtime/build.py:301-319 | every result but the target's comes after good results of all its dependencies, and the target is always run, last |
| `Build.TargetServedIff` | runtime/build.py:301-319 | every dependency of the target has an earlier good result iff every result but the target's own is good |
| `Build.DryRunChangesNothing` | runtime/build.py:240-250 | a dry run changes nothing, executes nothing and reports every task |
| `Build.JoinedIsInjective` | runtime/build.py:58-70 | the text hashed for a task determines its parts |
| `Build.HashDetectsChanges` | runtime/build.py:58-70 | absent collisions, two tasks at any two times hash the same iff the texts of their inputs and command are the same row |
| `Build.UpToDateIffUnchanged` | runtime/build.py:222-250 | once run and recorded, a task is later reported up to date iff the texts of its inputs and command are what its action left |
| `Build.ChangedTaskIsExecuted` | runtime/build.py:222-319 | after a good run, whatever changes, a task's turn in the next run reports it up to date iff its inputs and command are unchanged |
| `Build.ResultAtTurn` | runtime/build.py:308-319 | a task that is due has exactly one result in a run, the one of its turn |
| `Build.SourcesSameIff` | runtime/build.py:58-70 | for a task that keeps its input names that means the same input files and the same command |
| `Build.MovedTextIsMissed` | runtime/build.py:58-70 | a text that moves from an input to the command leaves the hash as it was |
| `Build.GoodRunSettles` | runtime/build.py:222-277 | an all-good run leaves every ordered task recorded as up to date |
| `Build.SettledRunIsPhony` | runtime/build.py:222-277 | if the tasks due are settled and no step of the run changes what a task still due reads, the run executes exactly the phony ones |
| `Build.SecondRunExecutesOnlyPhony` | runtime/build.py:222-319 | after an all-good run that left earlier inputs alone, a second run that leaves later inputs alone executes exactly the phony tasks |
| `Build.BuildSystem.Register` | runtime/build.py:107-128 | a task is stored under its own name |
| `Build.BuildSystem.RunOne` | runtime/build.py:240-277 | one task's status and the new hashes and store |
| `Build.BuildSystem.RunOrder` | runtime/build.py:308-319 | the loop over the order computes the run function |
| `Build.BuildSystem.Run` | runtime/build.py:279-319 | no target, an unknown one or a cycle yields no results and no change; otherwise a run over some valid order |
| `Pipeline.ExecutedStatus` | runtime/ci.py:323-361 | an executed job ends ok iff every step succeeds, else failed |
| `Pipeline.ExecutedSteps` | runtime/ci.py:323-361 | steps up to the first that does not exit with 0 are ok, that one failed, later ones untouched |
| `Pipeline.PassesKeepSound` | runtime/ci.py:297-321 | throughout a run, handled jobs were handled once, after their needs, and stand as needs and steps dictate; others are untouched |
| `Pipeline.RunComesToRest` | runtime/ci.py:297-303 | the bound on passes never cuts a run short |
| `Pipeline.CompletedIsLeastFixedPoint` | runtime/ci.py:297-317 | the completed jobs are the least set closed under "all needs completed" |
| `Pipeline.CompletedIffRunnable` | runtime/ci.py:297-317 | a job completes iff it reaches neither an undefined job nor a cycle |
| `Pipeline.OrderHasNoSay` | runtime/ci.py:297-361 | jobs written in another order end in the same states |
| `Pipeline.SkippedIffNeedFailed` | runtime/ci.py:308-317 | a completed job is skipped iff a direct need failed, and otherwise executed |
| `Pipeline.HandledInOrder` | runtime/ci.py:302-317 | no job is handled twice, none before its needs |
| `Pipeline.PassedIff` | runtime/ci.py:103-106 | a run passes iff every job can run and all steps succeed |
| `Pipeline.BuiltJobs` | runtime/ci.py:276-295 | without a filter all jobs are built, with one just that job |
| `Pipeline.FilteredJobRunsIffNoNeeds` | runtime/ci.py:276-295 | a filtered job completes iff it has no needs |
| `Pipeline.PipelineRun.ExecuteJob` | runtime/ci.py:323-361 | steps run up to the first failure, later ones stay as they were |
| `Pipeline.PipelineRun.TakeTurn` | runtime/ci.py:304-317 | one job waits, is skipped or is executed |
| `Pipeline.PipelineRun.MakePass` | runtime/ci.py:304-317 | one pass gives every job its turn in order |
| `Pipeline.PipelineRun.MakePasses` | runtime/ci.py:297-317 | the early exit gives the same jobs as all passes |
| `Pipeline.PipelineRun.Execute` | runtime/ci.py:297-321 | the run's jobs and status; from pending jobs it is "passed" iff every job can run and succeeds |
| `Text.SplitThenJoin` | apps/helix.py:349-356 | splitting a text at newlines and joining gives it back |
| `Text.JoinThenSplit` | apps/helix.py:349-356 | lines without newlines are recovered from the flat text |
| `Text.OffsetIsMonotone` | apps/helix.py:255-271 | cursor positions are ordered as their offsets in the flat text |
| `Text.ReplacedIsEdited` | apps/helix.py:379-402 | replacing lines between two positions is editing the flat text between their offsets |
| `Text.BetweenText` | apps/helix.py:358-377 | the lines between two positions are the slice between their offsets |
| `Edits.InsertedText` | apps/helix.py:296-306 | typing is insertion at the cursor's offset |
| `Edits.DeletedText` | apps/helix.py:308-321 | deleting removes the preceding character, newlines included, and nothing at the start |
| `Edits.LineDeletedText` | apps/helix.py:323-332 | deleting a line removes it with the newline behind it or, for the last, before it |
| `Edits.NewlineText` | apps/helix.py:334-347 | a newline replaces the white space behind the cursor by a newline and the indentation |
| `Edits.BreakMeasures` | apps/helix.py:334-347 | a break indents by the line's leading white space, four more iff its last visible character is a colon, and takes all white space behind the cursor |
| `Edits.DuplicatedText` | apps/helix.py:895-899 | duplicating a line inserts a newline and the line behind it, the cursor at the same place in the copy |
| `Edits.DedentedText` | apps/helix.py:911-917 | dedenting takes the four spaces from an indented line, the cursor staying with its character, and leaves any other line |
| `Edits.ReplacedBetweenText` | apps/helix.py:379-402 | replacing a selection is a splice between its two offsets |
| `Edits.LStripLaws` | apps/helix.py:338-343 | stripping on the left removes all leading white space and nothing else |
| `Edits.RStripLaws` | apps/helix.py:340-340 | stripping on the right removes all trailing white space and nothing else |
| `Buffer.Buffer.constructor` | apps/helix.py:257-271 | a new buffer has a line, the cursor at its start and one undo node |
| `Buffer.Buffer.Snapshot` | apps/helix.py:273-277 | the state before an edit becomes the newest child of the undo node |
| `Buffer.Buffer.Undo` | apps/helix.py:279-286 | goes to the parent node and its state, or does nothing at the root |
| `Buffer.Buffer.Redo` | apps/helix.py:288-294 | goes to the latest child and its state, or does nothing at a leaf |
| `Buffer.Buffer.InsertChar` | apps/helix.py:296-306 | snapshot, then the insertion |
| `Buffer.Buffer.DeleteChar` | apps/helix.py:308-321 | snapshot, then the deletion |
| `Buffer.Buffer.DeleteLine` | apps/helix.py:323-332 | snapshot, then the removal of the line |
| `Buffer.Buffer.Newline` | apps/helix.py:334-347 | snapshot, then the line break with indentation |
| `Buffer.Buffer.DuplicateLine` | apps/helix.py:895-899 | snapshot, then the copy of the line |
| `Buffer.Buffer.DedentLine` | apps/helix.py:911-917 | on an indented line snapshot, then the dedent; otherwise nothing |
| `Buffer.Buffer.SelectedText` | apps/helix.py:358-377 | the slice of the flat text between the selection's ends, else the cursor's line |
| `Buffer.Buffer.ReplaceSelection` | apps/helix.py:379-402 | the splice; without a selection the cursor stays in the text iff the new line is long enough |
| `Buffer.Buffer.Jump` | apps/helix.py:713-717 | the cursor is put where a match was found, and stays in the text iff that place still is |
| `Buffer.EditThenUndo` | apps/helix.py:273-402 | undo takes back an edit, of any kind that takes a snapshot, iff it was made in the state its undo node held |
| `Buffer.EditsThenUndos` | apps/helix.py:273-402 | after n edits that took effect, j undos lead to the state before edit n - j; n undos to what the first undo node held |
| `Buffer.TwoEditsThenUndo` | apps/helix.py:273-402 | after any two edits that take effect, whatever came before, one undo takes back both |
| `Buffer.UndoThenRedo` | apps/helix.py:279-294 | undo then redo returns to the same undo node and its state |
| `Buffer.Session` | apps/helix.py:255-402 | every run of edits, undo, redo, cursor keys, selections and replacements keeps a line and the cursor in range, which only a jump to a remembered match can leave |
| `Tokens.ScanString` | apps/helix.py:104-112 | a string ends at the first closing quote preceded by an even number of backslashes, or with the line |
| `Tokens.ScanJsonString` | apps/helix.py:186-190 | the same for JSON strings |
| `Tokens.NextPyToken` | apps/helix.py:98-145 | the token at a column is of the kind that begins there and as long as that kind goes |
| `Tokens.PyTokenKind` | apps/helix.py:95-145 | the first character tells a token's kind, for words together with the word |
| `Tokens.PyTokenExtent` | apps/helix.py:95-145 | the kind tells how far a token goes |
| `Tokens.TokenizePython` | apps/helix.py:84-146 | tokens concatenate to the line, columns are the lengths before, each token is the one its column calls for |
| `Tokens.PythonIsDetermined` | apps/helix.py:84-146 | there is one such list of tokens |
| `Tokens.TokenizeJson` | apps/helix.py:172-202 | the same for JSON |
| `Tokens.JsonTokenReads` | apps/helix.py:184-202 | the first characters tell a JSON token's kind and how far it goes |
| `Tokens.JsonIsDetermined` | apps/helix.py:172-202 | there is one such list of tokens |
| `Tokens.TokenizeShell` | apps/helix.py:149-169 | a comment line is one token, any other is cut into maximal runs with and without white space, losslessly |
| `Tokens.ShellPieceReads` | apps/helix.py:163-169 | a piece is white space only or has none, and is a keyword iff it is on the list |
| `Tokens.ShellIsDetermined` | apps/helix.py:163-169 | there is one such cut |
| `RateLimit.AllowBounds` | net/resilience.py:196-214 | granted iff the refilled bucket holds the tokens; what is left and what was taken make up the refilled level or the capacity |
| `RateLimit.Conservation` | net/resilience.py:196-214 | over any run, granted plus remaining is at most initial plus inflow |
| `RateLimit.WindowBound` | net/resilience.py:196-214 | tokens granted between two times are at most capacity plus rate times their distance |
| `RateLimit.BurstGranted` | net/resilience.py:196-214 | a burst the bucket holds is granted whole |
| `RateLimit.FirstBurst` | net/resilience.py:185-236 | at the start exactly 2g calls overall and 3r per address can be granted at once |
| `RateLimit.BucketsStartFull` | net/resilience.py:254-267 | an address without a bucket gets a full one of 3r, one whose limit is set a full one of three times the rate, others stay |
| `RateLimit.SpendOutcome` | net/resilience.py:258-262 | spending is granted iff the address's refilled bucket holds a token, charges no other, and counts a refusal |
| `RateLimit.RunKeepsSettled` | net/resilience.py:196-267 | at every point of every interleaved run each bucket is between empty and full and was last charged in the past |
| `RateLimit.GlobalBound` | net/resilience.py:236-262 | however calls are interleaved, those admitted in a stretch of a run or left under way after it are at most those under way before it, one global bucket and the inflow |
| `RateLimit.AddressBound` | net/resilience.py:242-262 | however calls are interleaved, an address is admitted at most one bucket plus inflow in any stretch in which its limit is not reset |
| `RateLimit.LimitsHold` | net/resilience.py:227-262 | in any stretch of length T of any interleaved run from the start, at most 3r + rT admissions per address, and 2g + gT overall beyond the calls under way when it began |
| `RateLimit.OverallLimitHoldsIff` | net/resilience.py:252-262 | from any moment on every interleaved run keeps the overall limit iff the calls under way and the tokens in the global bucket fit in it together |
| `RateLimit.WaitingCallsAreAdmitted` | net/resilience.py:252-262 | a run in which more calls are admitted at one time than the global bucket holds |
| `RateLimit.TokenBucket.Take` | net/resilience.py:196-214 | refills, stamps and charges the bucket |
| `RateLimit.RateLimiter.EnterCall` | net/resilience.py:252-253 | the first part of a call: one charge of the global bucket |
| `RateLimit.RateLimiter.EnsureBucket` | net/resilience.py:254-257 | the second part: the address gets a full bucket if it has none |
| `RateLimit.RateLimiter.ChargeBucket` | net/resilience.py:258-262 | the third part: one charge of the address's bucket, and a refusal counted |
| `RateLimit.RateLimiter.Request` | net/resilience.py:242-262 | a call not overlapped by others: enters by the global bucket, gets its address a bucket, spends from it |
| `RateLimit.RateLimiter.Set` | net/resilience.py:264-267 | the address gets a new full bucket |
| `CircuitBreaker.ConsistentRun` | net/resilience.py:105-130 | under any interleaving of checks, outcomes and resets the breaker is closed iff its count is below the threshold |
| `CircuitBreaker.ClosedIffBelowThreshold` | net/resilience.py:105-130 | that invariant holds from a new breaker iff the threshold is positive |
| `CircuitBreaker.StateIsReadOff` | net/resilience.py:105-130 | under any interleaving count, time and state are read off the events: failures since the last success or reset, the last failure's time, closed iff below the threshold, half-open iff tried again after the recovery time |
| `CircuitBreaker.ReportCloses` | net/resilience.py:112-130 | after a success or reset the breaker is closed and admits, through any threshold - 1 further failures |
| `CircuitBreaker.CallOutcome` | net/resilience.py:75-124 | when a call is invoked, and what its success or failure makes of the breaker |
| `CircuitBreaker.FailingFunction` | net/resilience.py:75-124 | a function that always fails is invoked exactly threshold times before the breaker opens, and afterwards in calls that start more than the recovery time after the one before |
| `CircuitBreaker.InvocationsAreSpaced` | net/resilience.py:105-124 | the starts of an open breaker's invocations of a failing function lie more than the recovery time apart |
| `CircuitBreaker.OpenInvocations` | net/resilience.py:105-124 | an open breaker invokes a failing function only with more than the recovery time between failures |
| `CircuitBreaker.OpenRefuses` | net/resilience.py:90-110 | calls that start within the recovery time are refused without effect |
| `CircuitBreaker.HalfOpenUntilReport` | net/resilience.py:105-130 | one event leaves a half-open breaker half-open iff it is a check |
| `CircuitBreaker.ProbesOverlap` | net/resilience.py:90-130 | a half-open breaker stays so, admitting every call, throughout a run iff the run holds only further checks |
| `CircuitBreaker.TwoProbes` | net/resilience.py:90-110 | two calls after one recovery time are both invoked |
| `CircuitBreaker.CircuitBreaker.CheckState` | net/resilience.py:105-110 | open becomes half-open after the recovery time |
| `CircuitBreaker.CircuitBreaker.OnSuccess` | net/resilience.py:112-116 | a success closes the breaker and clears the count |
| `CircuitBreaker.CircuitBreaker.OnFailure` | net/resilience.py:118-124 | a failure counts, stamps and opens at the threshold |
| `CircuitBreaker.CircuitBreaker.ForceClose` | net/resilience.py:126-130 | reset closes the breaker and clears the count |
| `CircuitBreaker.CircuitBreaker.PerformCall` | net/resilience.py:75-103 | a call that no other overlaps |
| `Watchdog.RestartBudget` | kernel/watchdog.py:196-230 | without manual control at most five restarts happen over a whole run |
| `Watchdog.BackoffBetweenRestarts` | kernel/watchdog.py:80-82 | restart k+1 comes at least min(300, 2^k) seconds after restart k |
| `Watchdog.RestartsNeedThreeFailures` | kernel/watchdog.py:170-220 | a poll that restarts is at least the third failed check since the last healthy one or successful restart |
| `Watchdog.FailuresAreConsecutive` | kernel/watchdog.py:170-220 | until quarantine the failure count is the number of failed checks since the last healthy one or successful restart |
| `Watchdog.HealthyIffSuccess` | kernel/watchdog.py:170-230 | until quarantine a polled subsystem shows as healthy iff its last poll was a success, and as degraded after a first failure |
| `Watchdog.CheckIsNoted` | kernel/watchdog.py:170-230 | a check is noted with its time, failures are counted, successes noted with their time |
| `Watchdog.QuarantineAbsorbs` | kernel/watchdog.py:160-168 | quarantine ends only by manual control |
| `Watchdog.QuarantineIsEarned` | kernel/watchdog.py:196-217 | quarantine means five restarts were made, or none is possible |
| `Watchdog.BoundedOutage` | kernel/watchdog.py:160-230 | a subsystem failing every poll is quarantined within 19 polls, without a restart function within 3 |
| `Watchdog.EighteenPollsMayNotDo` | kernel/watchdog.py:160-230 | the bound of 19 is sharp: an outage of 18 polls without quarantine |
| `Watchdog.ManualRestartOutcome` | kernel/watchdog.py:246-264 | a manual restart clears quarantine iff the subsystem can be restarted, renews the budget, and waits only within a second of the last restart |
| `Watchdog.ResumedBudget` | kernel/watchdog.py:266-285 | after a resume there are again at most five restarts until the next quarantine, and exactly five if it comes |
| `Watchdog.SuccessfulRestartsCount` | kernel/watchdog.py:170-230 | after five restarts, however they ended, any run of polls quarantines iff at some poll three or more checks in a row have failed outside the back-off |
| `Watchdog.QuarantinedWithoutFailedRestart` | kernel/watchdog.py:160-230 | a run from registration in which all five restarts work and that ends in quarantine |
| `Watchdog.SubsystemRecord.TryRestart` | kernel/watchdog.py:196-230 | one restart attempt on the record |
| `Watchdog.SubsystemRecord.Check` | kernel/watchdog.py:170-194 | one health check on the record |
| `Watchdog.KernelWatchdog.Register` | kernel/watchdog.py:108-125 | a fresh record replaces any of that name, the others stay |
| `Watchdog.KernelWatchdog.CheckAll` | kernel/watchdog.py:160-168 | each record not in quarantine takes exactly its own step |
| `Watchdog.KernelWatchdog.Restart` | kernel/watchdog.py:246-264 | manual restart of one record, the others unchanged |
| `Watchdog.KernelWatchdog.ResumeOne` | kernel/watchdog.py:266-285 | clears one quarantine, the others unchanged |
| `TwoPhase.AllYesIffEachLastYes` | net/innovations.py:534-556 | the recorded votes are all yes iff each node said yes to the last write sent to it |
| `TwoPhase.PollRecordsAnswers` | net/innovations.py:534-556 | each node asked is recorded with its answer to the last write sent to it, the local one with yes, a null one with no |
| `TwoPhase.VotesAreFaithfulIff` | net/innovations.py:534-574 | the test is unanimity, whatever the answers, iff no remote node is asked twice or a null node's no settles it |
| `TwoPhase.ActiveTracksRun` | net/innovations.py:492-599 | under any interleaving a transaction is live exactly while the run leaves it open, with the writes it began with and the votes of its last poll |
| `TwoPhase.CommitsIffAllYes` | net/innovations.py:571-574 | what commit tests is what the run's history says |
| `TwoPhase.StoreIsReplay` | net/innovations.py:576-590 | the local store is the replay of users' writes and of committed transactions' local writes in commit order |
| `TwoPhase.PerformMeans` | net/innovations.py:577-581 | performing a transaction leaves at each path its last local write, other paths alone |
| `TwoPhase.DecisionSticks` | net/innovations.py:582-599 | a decided transaction's log record never changes again |
| `TwoPhase.Verdict` | net/innovations.py:492-599 | the logged status is committed iff commit came before any abort with the vote in favour, aborted iff decided otherwise, else how far it has come |
| `TwoPhase.CommittedIffLastAnswersYes` | net/innovations.py:520-590 | a polled transaction is logged as committed iff each node answered yes to the last write sent to it in its last poll, else as aborted |
| `TwoPhase.CommitNeedsVotesIffPrepared` | net/innovations.py:571-590 | after a poll, committed iff each node's last answer was yes; never polled, committed anyway |
| `TwoPhase.TwoPhaseCommit.BeginTxn` | net/innovations.py:492-518 | the transaction is live and logged as preparing |
| `TwoPhase.TwoPhaseCommit.Ask` | net/innovations.py:534-553 | the votes by node are the answers to the last write sent to each, and are all yes iff those answers are |
| `TwoPhase.TwoPhaseCommit.PrepareTxn` | net/innovations.py:520-558 | records and logs the votes of a live transaction, else nothing |
| `TwoPhase.TwoPhaseCommit.PerformLocal` | net/innovations.py:577-581 | the local writes in order |
| `TwoPhase.TwoPhaseCommit.CommitTxn` | net/innovations.py:560-590 | performs, logs and closes by the votes, and reports the outcome |
| `TwoPhase.TwoPhaseCommit.AbortTxn` | net/innovations.py:592-599 | logs a live transaction as aborted and closes it |
| `Context.EvictionIsDetermined` | ai/context.py:358-371 | "the least important candidates, just enough of them" admits one set |
| `Context.EvictionByImportance` | ai/context.py:358-371 | what is evicted is unpinned, before the last four, and less important or older than all such messages kept, down to the budget and no further |
| `Context.EvictNext` | ai/context.py:361-371 | one turn of the loop keeps to the least important first and to no more than needed |
| `Context.MandatorySurvive` | ai/context.py:362-365 | pinned messages and the last four survive |
| `Context.SelectionIsDetermined` | ai/context.py:373-409 | "all mandatory, and those others that fit into what more important ones leave" admits one set |
| `Context.SelectionByImportance` | ai/context.py:373-409 | the pinned and the last four are selected, and of the others those that fit into what these and the more important chosen ones leave |
| `Context.SelectionWeight` | ai/context.py:398-409 | a selection stays within the budget unless it is just the mandatory messages |
| `Context.EverythingSelectedIff` | ai/context.py:398-409 | everything is selected iff it fits and the least important message still finds budget left |
| `Context.BelowBudgetIsWhole` | ai/context.py:373-414 | a conversation below the budget is passed on whole and in order |
| `Context.ContextManager.LeastCandidate` | ai/context.py:362-369 | finds the first of the least important evictable messages, if any |
| `Context.ContextManager.EvictIfNeeded` | ai/context.py:358-371 | the survivors, in order, are all but the one eviction; the total is their sum |
| `Context.ContextManager.Add` | ai/context.py:189-215 | appends, then evicts |
| `Context.ContextManager.Pin` | ai/context.py:217-230 | pins an existing position and nothing else |
| `Context.ContextManager.RankOptional` | ai/context.py:390-396 | the non-mandatory positions, most important first, stably |
| `Context.ContextManager.SelectMessages` | ai/context.py:373-414 | the one selection, in conversation order, within the budget or mandatory only, and whole below the budget |
| `FatImage.GeometryIsPossibleIff` | boot/nova_vm.py:149-168 | the table has room for its reserved entries iff the size is positive |
| `FatImage.TableFits` | boot/nova_vm.py:149-184 | each copy of the table fits its sectors, and both lie before the data |
| `FatImage.ClustersAreDisjoint` | boot/nova_vm.py:220-230 | clusters map to disjoint sector ranges between the tables and the end |
| `FatImage.LinksAreBelowEndIff` | boot/nova_vm.py:147-163 | cluster numbers stay below the end marker iff the image is at most 1065220 MB |
| `FatImage.ChainIsUnique` | boot/nova_vm.py:262-272 | a cluster starts at most one chain |
| `FatImage.LinksMakeChainIff` | boot/nova_vm.py:212-218 | an allocated run is a chain iff none of its links looks like the end marker |
| `FatImage.AdditionsKeepLayout` | boot/nova_vm.py:190-218 | after any additions, also failed ones, files are placed apart and unallocated entries are free |
| `FatImage.FilesHaveOwnChains` | boot/nova_vm.py:190-218 | after any additions a list of clusters is a file's chain iff it is the run its data needs, and it shares none with another file's |
| `FatImage.AdditionsFitIff` | boot/nova_vm.py:190-218 | no addition runs out of clusters iff the clusters needed together fit |
| `FatImage.FilesAreLastRecorded` | boot/nova_vm.py:190-218 | a path stands for the last addition that took effect for it, at the clusters that were next then |
| `FatImage.RootClusterIsFreeIff` | boot/nova_vm.py:166-218 | after any additions the root directory has its cluster to itself iff none of them had data |
| `FatImage.FileAtRootClusterIff` | boot/nova_vm.py:166-218 | a path starts at the root directory's cluster iff its last addition to take effect was the first with data |
| `FatImage.ReadFrom` | boot/nova_vm.py:259-272 | the chunks along a chain reassemble the data |
| `FatImage.FileReadsBack` | boot/nova_vm.py:259-272 | a written file reads back along its chain |
| `FatImage.ImageKeepsLengthIff` | boot/nova_vm.py:268-268 | writing a cluster keeps the image's length iff the cluster ends it |
| `FatImage.BuildKeepsLengthIff` | boot/nova_vm.py:259-272 | over all cluster writes of a build the image keeps its length throughout iff every cluster written ends it |
| `FatImage.FAT32Builder.constructor` | boot/nova_vm.py:149-168 | an empty table with its two reserved entries |
| `FatImage.FAT32Builder.AllocClusters` | boot/nova_vm.py:200-218 | links consecutive clusters, or fails at the end of the table leaving the links written so far |
| `FatImage.FAT32Builder.AddOne` | boot/nova_vm.py:190-198 | places one file, or none if empty; fails iff it does not fit |
| `FatImage.FAT32Builder.WriteFile` | boot/nova_vm.py:259-272 | the clusters the loop visits are the file's whole chain, its end met just as the data runs out, and it touches no other |
| `FatImage.FAT32Builder.WriteNext` | boot/nova_vm.py:259-272 | one more file is written and the earlier ones stay |
| `FatImage.FAT32Builder.Build` | boot/nova_vm.py:259-272 | after writing all files in any order each reads back |
| `VpnPacket.Keystream` | net/platform.py:79-85 | the key stream by blocks; the counter overflows iff the text is longer than 2^37 bytes |
| `VpnPacket.MaskEnciphers` | net/platform.py:76-87 | byte i is enciphered with byte i mod 32 of the digest of the stream key and the block number i / 32 in four bytes |
| `VpnPacket.Encrypt` | net/platform.py:63-89 | the packet is the magic, the nonce, the enciphered payload byte by byte, and the code of nonce and text |
| `VpnPacket.OpenedIsSealed` | net/platform.py:92-123 | an authentic packet is the encryption, under its own nonce, of what opening gives |
| `VpnPacket.OpenedIff` | net/platform.py:92-123 | a packet is an encryption of a payload iff it is authentic and opens to it |
| `VpnPacket.Decrypt` | net/platform.py:92-123 | yields a payload iff the packet is an encryption of it, deciphered byte by byte, and rejects iff not authentic |
| `VpnPacket.SendAndReceive` | net/platform.py:63-123 | the receiver gets the sender's payload |
| `Namespaces.MapPath` | kernel/namespaces.py:225-251 | the two forms of mapping a path agree |
| `Namespaces.MappedIff` | kernel/namespaces.py:225-251 | a path at or below the destination, and no other, leads to the same way on from the source |
| `Namespaces.FoundIff` | kernel/namespaces.py:116-154 | a path resolves iff it, or what some binding maps it to, is in the store |
| `Namespaces.FirstFoundIsUnique` | kernel/namespaces.py:131-154 | "the first hit in this order" is one result |
| `Namespaces.ResolvedByMode` | kernel/namespaces.py:131-154 | the first before or replace binding that leads to an object decides; else the path itself; else the first after or union binding that does |
| `Namespaces.StoredPathIff` | kernel/namespaces.py:131-144 | a stored path resolves to its own object iff no before or replace binding leads to one, or the first that does leads to the same |
| `Namespaces.ListsByMode` | kernel/namespaces.py:156-203 | a listing shows what before and replace bindings show up to the first that replaces, and if none does, the directory's own children and what after and union bindings show |
| `Namespaces.ChildMaps` | kernel/namespaces.py:225-251 | a binding maps children of a directory to children of where it leads |
| `Namespaces.ListedResolves` | kernel/namespaces.py:116-203 | every name a listing shows resolves, for all bindings |
| `Namespaces.ListsIff` | kernel/namespaces.py:156-203 | without replacing bindings, a child is listed iff it resolves other than through a concealing binding |
| `Namespaces.ListedIffResolves` | kernel/namespaces.py:116-203 | so listing and resolving agree where nothing is concealed or replaced |
| `Namespaces.ReplaceListsIff` | kernel/namespaces.py:156-203 | once some binding replaces, any directory lists a child iff an early binding up to the first such one leads to it and does not conceal it; which children resolve unlisted |
| `Namespaces.HiddenIff` | kernel/namespaces.py:116-154 | for any bindings, a stored path is hidden iff a before or replace binding leads to something, and else resolves to itself |
| `Namespaces.UnboundKeepsOthers` | kernel/namespaces.py:101-114 | removing a destination leaves just the other bindings |
| `Namespaces.UnboundSplits` | kernel/namespaces.py:101-114 | the bindings that remain stay in their order |
| `Namespaces.UnboundKeepsUnique` | kernel/namespaces.py:97-114 | destinations stay unique |
| `Namespaces.Namespace.Mount` | kernel/namespaces.py:86-99 | a binding replaces any for its destination and comes last |
| `Namespaces.Namespace.Unmount` | kernel/namespaces.py:101-114 | removes the binding and reports whether there was one |
| `Namespaces.Namespace.Resolve` | kernel/namespaces.py:116-154 | the result that the modes of the bindings give in their order |
| `Namespaces.Namespace.Listdir` | kernel/namespaces.py:156-203 | exactly the names that the modes of the bindings show |
| `Namespaces.Namespace.Clone` | kernel/namespaces.py:253-263 | a new namespace with the same bindings |
| `Namespaces.ForkAndChange` | kernel/namespaces.py:70-82 | a clone and its parent do not see each other's later bindings |
| `Quantiser.CodeIsClose` | ai/federated.py:91-110 | a value comes back within half a step |
| `Quantiser.RoundIsNearest` | ai/federated.py:91-95 | rounding goes to the nearest integer, halves to the even one |
| `Quantiser.QuantisedIsClose` | ai/federated.py:76-110 | codes are in range, values within half a step, minimum and maximum exact |
| `Quantiser.CodesKeepOrder` | ai/federated.py:91-95 | codes keep the order of the values |
| `Quantiser.QuantisingAgainIsSame` | ai/federated.py:76-110 | quantising restored values gives the same codes, minimum and scale |
| `Quantiser.RelayedDeltaIsSame` | ai/federated.py:113-158 | passing a delta on without noise changes nothing in it |
| `Quantiser.ModelDelta.constructor` | ai/federated.py:121-135 | every nonempty parameter list is quantised |
| `Quantiser.ModelDelta.GetParams` | ai/federated.py:137-158 | every quantised list is restored |
| `EfiImage.FieldReads` | boot/efi_builder.py:296-405 | reading a packed little-endian field at its offset gives its value |
| `EfiImage.SizesAreLeast` | boot/efi_builder.py:227-294 | sizes are the least aligned multiples |
| `EfiImage.Build` | boot/efi_builder.py:281-405 | every part of the image and its place, or failure iff the image size exceeds 32 bits |
| `EfiImage.ImageIsVerified` | boot/efi_builder.py:467-479 | the header check accepts what is written |
| `EfiImage.ImageLoads` | boot/efi_builder.py:281-405 | every header field reads back, headers and section do not overlap, the text stands unchanged at its pointer |
| `EfiImage.FindFirst` | boot/efi_builder.py:204-209 | the first occurrence of a byte pattern, if any |
| `EfiImage.ComputeStub` | boot/efi_builder.py:194-216 | the displacement of the LEA reaches the first byte of the message |
| `EfiImage.BuildBootFile` | boot/efi_builder.py:448-465 | a file is built iff its sections fit 32 bits; it is accepted, and its code addresses its message |

## Left out

- Sockets, HTTP, subprocesses, threads and their sleeping, curses, SQLite, LLM and GPU calls, installers: input and
  output; what they return is a parameter.
- Floating point: times, rates, importances and parameters are reals; rounding and NaN are not modelled.
- Hash strength and collisions: SHA-256 and HMAC are uninterpreted functions of fixed length.
- The object store: a map from paths to contents or object ids. In `Namespaces` a directory's names are the paths
  below it; the wildcard characters and case rules of its SQL pattern are not modelled.
- Crdt.CRDTStore.SyncWithPeer: the endpoint that applies pushed registers is not part of this model; the peer is
  taken to merge them one by one. Fetching object contents is left out.
- Crdt.CRDTStore.constructor: re-stamping existing aliases after a restart; runs start from empty tables.
- Build.BuildSystem.RunOne: outputs, durations and messages of actions.
- Pipeline.PipelineRun.ExecuteJob: environments, outputs and durations of steps.
- Buffer.Buffer.constructor: scrolling, language detection and splitting of the content into lines.
- Buffer.Buffer.SelectedText: selections with an end outside the text, which no edit repairs.
- Buffer.Buffer.ReplaceSelection: selections with an end outside the text; line breaks other than newlines.
- Buffer.Session: keys pressed after a jump out of the text; find and replace, which does not repair the cursor.
- Buffer.EditsThenUndos: replacing a block with an end beyond the last line counts as no edit.
- Tokens.TokenizeShell: splitting at white space is modelled as maximal runs; `re.split` itself is not.
- RateLimit.RateLimiter.ChargeBucket: a limit set between looking up an address's bucket and charging it, which
  charges the bucket just replaced; and the count of refusals is taken under the same lock as the charge.
- Watchdog.BackoffBetweenRestarts: the 300 second cap is never reached without manual control.
- TwoPhase.Verdict: failing store writes; ids are taken to be fresh and users and transactions to write outside
  the log. Phase two sends nothing to other nodes, so remote effects are not part of the model.
- Context.ContextManager.Add: scoring and token counting of a message are inputs. Compression, which also drops
  pinned messages, saving and loading are left out.
- Context.ContextManager.SelectMessages: the final sort by position is modelled as picking positions in order.
- Raw bytes of the FAT image, boot sector and directory entries: data clusters are kept in a map, because the
  image itself is damaged by the slice described above.
- FatImage.FAT32Builder.AddOne: paths are taken as already upper-cased.
- VpnPacket.Encrypt: the nonce is an input; session keys are left out.
- Namespaces.Namespace.Listdir: yields the set of names, not their sorted list; locking is left out.
- Quantiser.ModelDelta.GetParams: differential-privacy noise.
- EfiImage.Build: alignment is arithmetic; the bit mask is the same for powers of two.
- EfiImage.BuildBootFile: the extended chain-loading stub; message encoding.
- Process reputation, memory and process managers, sandboxes, prefix routing, pane splitting and the
  collaborative editing session: easy claims, or claims the code does not meet.
