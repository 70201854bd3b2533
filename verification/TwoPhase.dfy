/** The two-phase commit coordinator (net/innovations.py). */
module TwoPhase {
  import opened Wrappers

  /** A write names its node, leaves it out, or names it null. */
  datatype Node = Missing | Null | Url(url: string)

  datatype Write = Write(node: Node, path: string, content: string)

  datatype Status = Preparing | Prepared | Committed | Aborted

  type Votes = map<Option<string>, bool>

  datatype Txn = Txn(writes: seq<Write>, status: Status, votes: Votes)

  /** What the object store holds at a path: a user's text or a transaction's log record. */
  datatype Value = Text(text: string) | Record(txn: Txn)

  type Store = map<string, Value>

  /** What each write's node would answer; a failed request counts as a no. */
  type Answers = nat -> bool

  datatype State = State(active: map<string, Txn>, store: Store)

  const TXN_LOG := "/system/txn_log"

  function LogPath(id: string): string {
    TXN_LOG + "/" + id
  }

  predicate InLog(path: string) {
    |TXN_LOG| < |path| && path[..|TXN_LOG| + 1] == TXN_LOG + "/"
  }

  lemma {:induction false} LogPathsDiffer(id: string, other: string)
    ensures InLog(LogPath(id))
    ensures LogPath(id) == LogPath(other) ==> id == other
  {
    assert LogPath(id)[|TXN_LOG| + 1..] == id && LogPath(other)[|TXN_LOG| + 1..] == other;
  }

  /* ---------- voting ---------- */

  /** The key under which a vote is kept; a missing node counts as the local one, a null node does not. */
  function Key(node: Node): Option<string> {
    match node
    case Missing => Some("local")
    case Null => None
    case Url(url) => Some(url)
  }

  /** The local node votes yes, and a null node cannot be asked. */
  predicate Vote(node: Node, answer: bool) {
    Key(node) == Some("local") || (node.Url? && answer)
  }

  /** Votes are kept by node, so a later write to a node replaces its earlier vote. */
  function Poll(writes: seq<Write>, answers: Answers, n: nat): Votes
    requires n <= |writes|
  {
    if n == 0 then map[]
    else Poll(writes, answers, n - 1)[Key(writes[n - 1].node) := Vote(writes[n - 1].node, answers(n - 1))]
  }

  predicate AllYes(votes: Votes) {
    forall key <- votes :: votes[key]
  }

  predicate LastOfNode(writes: seq<Write>, k: nat, n: nat)
    requires k < n <= |writes|
  {
    forall j | k < j < n :: Key(writes[j].node) != Key(writes[k].node)
  }

  /** The vote kept under the key is the answer to write k, the last one for its node. */
  predicate KeptFrom(writes: seq<Write>, answers: Answers, n: nat, key: Option<string>, k: nat)
    requires n <= |writes|
  {
    && k < n && Key(writes[k].node) == key && LastOfNode(writes, k, n)
    && key in Poll(writes, answers, n) && Poll(writes, answers, n)[key] == Vote(writes[k].node, answers(k))
  }

  lemma {:induction false} KeptVote(writes: seq<Write>, answers: Answers, n: nat, key: Option<string>) returns (k: nat)
    requires n <= |writes| && key in Poll(writes, answers, n)
    ensures KeptFrom(writes, answers, n, key, k)
    decreases n
  {
    if key == Key(writes[n - 1].node) {
      k := n - 1;
    } else {
      k := KeptVote(writes, answers, n - 1, key);
    }
  }

  lemma {:induction false} LastIsKept(writes: seq<Write>, answers: Answers, n: nat, k: nat)
    requires k < n <= |writes| && LastOfNode(writes, k, n)
    ensures KeptFrom(writes, answers, n, Key(writes[k].node), k)
    decreases n
  {
    if k < n - 1 {
      LastIsKept(writes, answers, n - 1, k);
    }
  }

  /** The recorded votes are all yes exactly when each node said yes to the last write sent to it. */
  predicate EachLastYes(writes: seq<Write>, answers: Answers) {
    forall k | 0 <= k < |writes| && LastOfNode(writes, k, |writes|) :: Vote(writes[k].node, answers(k))
  }

  lemma {:induction false} AllYesIffEachLastYes(writes: seq<Write>, answers: Answers)
    ensures AllYes(Poll(writes, answers, |writes|)) <==> EachLastYes(writes, answers)
  {
    var n := |writes|;
    forall k | 0 <= k < n && LastOfNode(writes, k, n)
      ensures KeptFrom(writes, answers, n, Key(writes[k].node), k)
    {
      LastIsKept(writes, answers, n, k);
    }
    forall key | key in Poll(writes, answers, n)
      ensures exists k :: KeptFrom(writes, answers, n, key, k)
    {
      var k := KeptVote(writes, answers, n, key);
    }
  }

  /* ---------- what a poll says, in the writes and answers alone ---------- */

  /** Write k is the last one sent to its node; a missing node and the node named "local" are one. */
  ghost predicate SentLast(writes: seq<Write>, k: nat) {
    && k < |writes|
    && forall j | k < j < |writes| ::
         && writes[j].node != writes[k].node
         && !(writes[j].node in {Missing, Url("local")} && writes[k].node in {Missing, Url("local")})
  }

  /** The coordinator's own vote is yes, a remote node's is its answer, and a null node's is no. */
  ghost predicate LastAnswersAreYes(writes: seq<Write>, answers: Answers) {
    forall k: nat | SentLast(writes, k) ::
      writes[k].node in {Missing, Url("local")} || (writes[k].node.Url? && answers(k))
  }

  /** The votes recorded are those of the nodes asked, each with the answer to the last write sent to it. */
  ghost predicate RecordsAnswers(writes: seq<Write>, answers: Answers, votes: Votes) {
    && (forall k: nat | SentLast(writes, k) ::
         match writes[k].node
         case Missing => Some("local") in votes && votes[Some("local")]
         case Null => None in votes && !votes[None]
         case Url(url) => Some(url) in votes && (votes[Some(url)] <==> url == "local" || answers(k)))
    && (forall key <- votes :: exists k: nat | SentLast(writes, k) ::
         match writes[k].node
         case Missing => key == Some("local")
         case Null => key == None
         case Url(url) => key == Some(url))
  }

  lemma {:induction false} SentLastIff(writes: seq<Write>, k: nat)
    ensures SentLast(writes, k) <==> k < |writes| && LastOfNode(writes, k, |writes|)
  {
  }

  /** Polling records the answers. */
  lemma {:induction false} PollRecordsAnswers(writes: seq<Write>, answers: Answers)
    ensures RecordsAnswers(writes, answers, Poll(writes, answers, |writes|))
  {
    var n := |writes|;
    forall k: nat | SentLast(writes, k)
      ensures KeptFrom(writes, answers, n, Key(writes[k].node), k)
    {
      SentLastIff(writes, k);
      LastIsKept(writes, answers, n, k);
    }
    forall key | key in Poll(writes, answers, n)
      ensures exists k: nat :: SentLast(writes, k) && Key(writes[k].node) == key
    {
      var k := KeptVote(writes, answers, n, key);
      SentLastIff(writes, k);
    }
  }

  /** Recorded votes decide by the last answers alone. */
  lemma {:induction false} RecordedVotesDecide(writes: seq<Write>, answers: Answers, votes: Votes)
    requires RecordsAnswers(writes, answers, votes)
    ensures (forall key <- votes :: votes[key]) <==> LastAnswersAreYes(writes, answers)
  {
  }

  predicate Unanimous(writes: seq<Write>, answers: Answers) {
    forall k | 0 <= k < |writes| :: Vote(writes[k].node, answers(k))
  }

  predicate AsksTwice(writes: seq<Write>) {
    exists j, k | 0 <= j < k < |writes| ::
      writes[j].node.Url? && writes[j].node == writes[k].node && writes[j].node.url != "local"
  }

  predicate HasNullNode(writes: seq<Write>) {
    exists k | 0 <= k < |writes| :: writes[k].node == Null
  }

  lemma {:induction false} LastWithKey(writes: seq<Write>, k: nat, n: nat) returns (last: nat)
    requires k < n <= |writes|
    ensures k <= last < n && Key(writes[last].node) == Key(writes[k].node) && LastOfNode(writes, last, n)
    decreases n - k
  {
    if LastOfNode(writes, k, n) {
      return k;
    }
    var j :| k < j < n && Key(writes[j].node) == Key(writes[k].node);
    last := LastWithKey(writes, j, n);
  }

  /**
   "All participants voted yes" is what the coordinator tests, whatever they answer, exactly when no
   remote node is asked twice (or a null node's no settles the matter); otherwise a no can be lost.
   */
  lemma {:induction false} VotesAreFaithfulIff(writes: seq<Write>)
    ensures (forall answers: Answers :: AllYes(Poll(writes, answers, |writes|)) <==> Unanimous(writes, answers))
      <==> !AsksTwice(writes) || HasNullNode(writes)
  {
    if !AsksTwice(writes) || HasNullNode(writes) {
      forall answers: Answers
        ensures AllYes(Poll(writes, answers, |writes|)) <==> Unanimous(writes, answers)
      {
        AllYesIffEachLastYes(writes, answers);
        if EachLastYes(writes, answers) {
          EachLastYesMeansUnanimous(writes, answers);
        }
      }
    } else {
      var answers := LostVote(writes);
      AllYesIffEachLastYes(writes, answers);
      assert AllYes(Poll(writes, answers, |writes|)) && !Unanimous(writes, answers);
    }
  }

  lemma {:induction false} LostVote(writes: seq<Write>) returns (answers: Answers)
    requires AsksTwice(writes) && !HasNullNode(writes)
    ensures EachLastYes(writes, answers) && !Unanimous(writes, answers)
  {
    var j, k :| 0 <= j < k < |writes| && writes[j].node.Url? && writes[j].node == writes[k].node
      && writes[j].node.url != "local";
    answers := i => i != j;
    assert !Vote(writes[j].node, answers(j));
    forall i | 0 <= i < |writes| && LastOfNode(writes, i, |writes|)
      ensures Vote(writes[i].node, answers(i))
    {
      assert i != j;
    }
  }

  lemma {:induction false} EachLastYesMeansUnanimous(writes: seq<Write>, answers: Answers)
    requires EachLastYes(writes, answers) && (!AsksTwice(writes) || HasNullNode(writes))
    ensures Unanimous(writes, answers)
  {
    if HasNullNode(writes) {
      var k :| 0 <= k < |writes| && writes[k].node == Null;
      var last := LastWithKey(writes, k, |writes|);
      assert false;
    }
    forall k | 0 <= k < |writes|
      ensures Vote(writes[k].node, answers(k))
    {
      var last := LastWithKey(writes, k, |writes|);
      assert Vote(writes[last].node, answers(last));
    }
  }

  /* ---------- the coordinator ---------- */

  datatype Action =
    | Begin(id: string, writes: seq<Write>)
    | Prepare(id: string, answers: Answers)
    | Commit(id: string)
    | Abort(id: string)
    | UserWrite(path: string, content: string)

  /** Phase two performs the local writes, counting a null node as local, and sends nothing to the others. */
  function Perform(store: Store, writes: seq<Write>, n: nat): Store
    requires n <= |writes|
  {
    if n == 0 then store
    else
      var before := Perform(store, writes, n - 1);
      var w := writes[n - 1];
      if w.node in {Missing, Null, Url("local")} then before[w.path := Text(w.content)] else before
  }

  function Saved(s: State, id: string, txn: Txn): State {
    State(s.active[id := txn], s.store[LogPath(id) := Record(txn)])
  }

  function Closed(s: State, id: string, txn: Txn): State {
    State(s.active - {id}, s.store[LogPath(id) := Record(txn)])
  }

  function Answered(writes: seq<Write>, answers: Answers): Txn {
    Txn(writes, Prepared, Poll(writes, answers, |writes|))
  }

  function Step(s: State, a: Action): State {
    match a
    case Begin(id, writes) => Saved(s, id, Txn(writes, Preparing, map[]))
    case Prepare(id, answers) =>
      if id !in s.active then s
      else
        Saved(s, id, Answered(s.active[id].writes, answers))
    case Commit(id) =>
      if id !in s.active then s
      else
        var txn := s.active[id];
        if AllYes(txn.votes)
        then Closed(s.(store := Perform(s.store, txn.writes, |txn.writes|)), id, txn.(status := Committed))
        else Closed(s, id, txn.(status := Aborted))
    case Abort(id) =>
      if id !in s.active then s else Closed(s, id, s.active[id].(status := Aborted))
    case UserWrite(path, content) => s.(store := s.store[path := Text(content)])
  }

  function At(run: seq<Action>, n: nat): State
    requires n <= |run|
  {
    if n == 0 then State(map[], map[]) else Step(At(run, n - 1), run[n - 1])
  }

  /* ---------- reading a transaction's fate off the run ---------- */

  predicate Concerns(a: Action, id: string) {
    !a.UserWrite? && a.id == id
  }

  /** The transaction was begun at b and neither begun again, committed nor aborted before n. */
  predicate OpenSince(run: seq<Action>, id: string, b: nat, n: nat)
    requires n <= |run|
  {
    && b < n && run[b].Begin? && run[b].id == id
    && forall i | b < i < n :: Concerns(run[i], id) ==> run[i].Prepare?
  }

  predicate PreparedSince(run: seq<Action>, id: string, p: nat, n: nat)
    requires n <= |run|
  {
    && p < n && run[p].Prepare? && run[p].id == id
    && forall i | p < i < n :: Concerns(run[i], id) ==> !run[i].Prepare?
  }

  predicate NeverPrepared(run: seq<Action>, id: string, b: nat, n: nat)
    requires n <= |run|
  {
    forall i | b < i < n :: Concerns(run[i], id) ==> !run[i].Prepare?
  }

  /** What the run says the coordinator should hold for a transaction begun at b. */
  predicate Shows(run: seq<Action>, id: string, b: nat, n: nat, txn: Txn)
    requires n <= |run| && b < n && run[b].Begin?
  {
    || (txn == Txn(run[b].writes, Preparing, map[]) && NeverPrepared(run, id, b, n))
    || exists p :: b < p < n && PreparedSince(run, id, p, n) && txn == Answered(run[b].writes, run[p].answers)
  }

  function Live(s: State, id: string): Option<Txn> {
    if id in s.active then Some(s.active[id]) else None
  }

  /** What the coordinator holds for the transaction agrees with the run so far. */
  ghost predicate Tracks(run: seq<Action>, id: string, n: nat, live: Option<Txn>)
    requires n <= |run|
  {
    match live
    case None => forall b :: 0 <= b < n ==> !OpenSince(run, id, b, n)
    case Some(txn) => exists b :: 0 <= b < n && OpenSince(run, id, b, n) && Shows(run, id, b, n, txn)
  }

  lemma {:induction false} ShowsElsewhere(run: seq<Action>, id: string, b: nat, n: nat, m: nat, txn: Txn)
    requires n < |run| && m == n + 1 && !Concerns(run[n], id)
    requires OpenSince(run, id, b, n) && Shows(run, id, b, n, txn)
    ensures OpenSince(run, id, b, m) && Shows(run, id, b, m, txn)
  {
    if p: nat :| b < p < n && PreparedSince(run, id, p, n) && txn == Answered(run[b].writes, run[p].answers) {
      assert PreparedSince(run, id, p, m);
    } else {
      assert NeverPrepared(run, id, b, m);
    }
  }

  lemma {:induction false} TracksElsewhere(run: seq<Action>, id: string, n: nat, m: nat, live: Option<Txn>)
    requires n < |run| && m == n + 1 && Tracks(run, id, n, live) && !Concerns(run[n], id)
    ensures Tracks(run, id, m, live)
  {
    if live.None? {
      forall b | 0 <= b < m
        ensures !OpenSince(run, id, b, m)
      {
        if b < n {
          assert !OpenSince(run, id, b, n);
        }
      }
    } else {
      var b :| 0 <= b < n && OpenSince(run, id, b, n) && Shows(run, id, b, n, live.value);
      ShowsElsewhere(run, id, b, n, m, live.value);
    }
  }

  lemma {:induction false} TracksBegin(run: seq<Action>, id: string, n: nat, m: nat)
    requires n < |run| && m == n + 1 && run[n].Begin? && run[n].id == id
    ensures Tracks(run, id, m, Some(Txn(run[n].writes, Preparing, map[])))
  {
    assert OpenSince(run, id, n, m);
    assert Shows(run, id, n, m, Txn(run[n].writes, Preparing, map[]));
  }

  lemma {:induction false} TracksPrepare(run: seq<Action>, id: string, n: nat, m: nat, live: Option<Txn>)
    requires n < |run| && m == n + 1 && Tracks(run, id, n, live) && run[n].Prepare? && run[n].id == id
    ensures Tracks(run, id, m, if live.None? then None else Some(Answered(live.value.writes, run[n].answers)))
  {
    assert Concerns(run[n], id);
    if live.None? {
      forall b | 0 <= b < m
        ensures !OpenSince(run, id, b, m)
      {
        if b < n {
          assert !OpenSince(run, id, b, n);
        }
      }
    } else {
      var b :| 0 <= b < n && OpenSince(run, id, b, n) && Shows(run, id, b, n, live.value);
      assert OpenSince(run, id, b, m);
      assert PreparedSince(run, id, n, m);
    }
  }

  lemma {:induction false} TracksEnd(run: seq<Action>, id: string, n: nat, m: nat)
    requires n < |run| && m == n + 1 && (run[n].Commit? || run[n].Abort?) && run[n].id == id
    ensures Tracks(run, id, m, None)
  {
    assert Concerns(run[n], id);
  }

  /**
   However transactions interleave, the coordinator holds one exactly while the run leaves it open, and as
   the run left it.
   */
  lemma {:induction false} ActiveTracksRun(run: seq<Action>, id: string, n: nat)
    requires n <= |run|
    ensures Tracks(run, id, n, Live(At(run, n), id))
    decreases n
  {
    if n > 0 {
      ActiveTracksRun(run, id, n - 1);
      var live := Live(At(run, n - 1), id);
      if !Concerns(run[n - 1], id) {
        TracksElsewhere(run, id, n - 1, n, live);
      } else {
        match run[n - 1]
        case Begin(_, _) => TracksBegin(run, id, n - 1, n);
        case Prepare(_, _) => TracksPrepare(run, id, n - 1, n, live);
        case Commit(_) => TracksEnd(run, id, n - 1, n);
        case Abort(_) => TracksEnd(run, id, n - 1, n);
      }
    }
  }

  /* ---------- what commits ---------- */

  /** The vote is in favour: the transaction was never prepared, or in the last poll each node's last answer was yes. */
  predicate Favoured(run: seq<Action>, id: string, b: nat, n: nat)
    requires n <= |run| && b < n && run[b].Begin?
  {
    NeverPrepared(run, id, b, n)
    || exists p :: b < p < n && PreparedSince(run, id, p, n) && EachLastYes(run[b].writes, run[p].answers)
  }

  predicate Commits(run: seq<Action>, id: string, n: nat)
    requires n <= |run|
  {
    exists b :: 0 <= b < n && OpenSince(run, id, b, n) && Favoured(run, id, b, n)
  }

  lemma {:induction false} PreparedOnce(run: seq<Action>, id: string, b: nat, p: nat, q: nat, n: nat)
    requires n <= |run| && b < p < n && PreparedSince(run, id, p, n)
    requires NeverPrepared(run, id, b, n) || PreparedSince(run, id, q, n)
    ensures p == q && !NeverPrepared(run, id, b, n)
  {
    assert Concerns(run[p], id);
    if q < n && PreparedSince(run, id, q, n) {
      assert Concerns(run[q], id);
    }
  }

  lemma {:induction false} FavouredIffAllYes(run: seq<Action>, id: string, b: nat, n: nat, txn: Txn)
    requires n <= |run| && b < n && run[b].Begin? && Shows(run, id, b, n, txn)
    ensures AllYes(txn.votes) <==> Favoured(run, id, b, n)
  {
    if p: nat :| b < p < n && PreparedSince(run, id, p, n) && txn == Answered(run[b].writes, run[p].answers) {
      AllYesIffEachLastYes(run[b].writes, run[p].answers);
      if Favoured(run, id, b, n) {
        if NeverPrepared(run, id, b, n) {
          PreparedOnce(run, id, b, p, p, n);
          assert false;
        }
        var q: nat :| b < q < n && PreparedSince(run, id, q, n) && EachLastYes(run[b].writes, run[q].answers);
        PreparedOnce(run, id, b, p, q, n);
      }
    }
  }

  /** When commit is called, the live transaction's recorded votes are all yes exactly if the run favours it. */
  lemma {:induction false} CommitsIffAllYes(run: seq<Action>, id: string, n: nat)
    requires n <= |run|
    ensures Commits(run, id, n) <==> Live(At(run, n), id).Some? && AllYes(Live(At(run, n), id).value.votes)
    ensures forall b :: 0 <= b < n && OpenSince(run, id, b, n) ==>
      Live(At(run, n), id).Some? && Live(At(run, n), id).value.writes == run[b].writes
  {
    ActiveTracksRun(run, id, n);
    var live := Live(At(run, n), id);
    if live.Some? {
      var b :| 0 <= b < n && OpenSince(run, id, b, n) && Shows(run, id, b, n, live.value);
      FavouredIffAllYes(run, id, b, n, live.value);
      forall c | 0 <= c < n && OpenSince(run, id, c, n)
        ensures c == b
      {
      }
    }
  }

  /* ---------- the store is a replay ---------- */

  predicate OutsideLog(a: Action) {
    match a
    case Begin(_, writes) => forall w <- writes :: !InLog(w.path)
    case UserWrite(path, _) => !InLog(path)
    case _ => true
  }

  ghost predicate AllOutsideLog(run: seq<Action>) {
    forall a <- run :: OutsideLog(a)
  }

  function Data(store: Store): Store {
    map path | path in store && !InLog(path) :: store[path]
  }

  /** Users' writes and, for each commit the run favours, all the local writes of its transaction, in order. */
  ghost function Replay(run: seq<Action>, n: nat): Store
    requires n <= |run|
  {
    if n == 0 then map[]
    else
      var before := Replay(run, n - 1);
      match run[n - 1]
      case UserWrite(path, content) => before[path := Text(content)]
      case Commit(id) =>
        if Commits(run, id, n - 1) then
          var b :| 0 <= b < n - 1 && OpenSince(run, id, b, n - 1) && Favoured(run, id, b, n - 1);
          Perform(before, run[b].writes, |run[b].writes|)
        else before
      case _ => before
  }

  lemma {:induction false} PerformOnData(store: Store, writes: seq<Write>, n: nat)
    requires n <= |writes| && forall w <- writes :: !InLog(w.path)
    ensures Data(Perform(store, writes, n)) == Perform(Data(store), writes, n)
    decreases n
  {
    if n > 0 {
      PerformOnData(store, writes, n - 1);
      var w := writes[n - 1];
      assert Data(Perform(store, writes, n - 1)[w.path := Text(w.content)])
        == Data(Perform(store, writes, n - 1))[w.path := Text(w.content)];
    }
  }

  lemma {:induction false} LoggingKeepsData(store: Store, id: string, txn: Txn)
    ensures Data(store[LogPath(id) := Record(txn)]) == Data(store)
  {
    LogPathsDiffer(id, id);
  }

  lemma {:induction false} CommitOnData(s: State, id: string)
    requires forall txn <- s.active.Values, w <- txn.writes :: !InLog(w.path)
    ensures var live := Live(s, id);
      Data(Step(s, Commit(id)).store) ==
        if live.Some? && AllYes(live.value.votes) then Perform(Data(s.store), live.value.writes, |live.value.writes|)
        else Data(s.store)
  {
    if id in s.active {
      var txn := s.active[id];
      if AllYes(txn.votes) {
        PerformOnData(s.store, txn.writes, |txn.writes|);
        LoggingKeepsData(Perform(s.store, txn.writes, |txn.writes|), id, txn.(status := Committed));
      } else {
        LoggingKeepsData(s.store, id, txn.(status := Aborted));
      }
    }
  }

  lemma {:induction false} OtherStepsOnData(s: State, a: Action)
    requires !a.Commit? && OutsideLog(a)
    ensures Data(Step(s, a).store) == if a.UserWrite? then Data(s.store)[a.path := Text(a.content)] else Data(s.store)
  {
    match a
    case Begin(id, writes) => LoggingKeepsData(s.store, id, Txn(writes, Preparing, map[]));
    case Prepare(id, answers) =>
      if id in s.active {
        LoggingKeepsData(s.store, id, Answered(s.active[id].writes, answers));
      }
    case Abort(id) =>
      if id in s.active {
        LoggingKeepsData(s.store, id, s.active[id].(status := Aborted));
      }
    case UserWrite(path, content) =>
  }

  lemma {:induction false} ActiveOutsideLog(run: seq<Action>, n: nat)
    requires n <= |run| && AllOutsideLog(run)
    ensures forall txn <- At(run, n).active.Values, w <- txn.writes :: !InLog(w.path)
    decreases n
  {
    if n > 0 {
      ActiveOutsideLog(run, n - 1);
      assert OutsideLog(run[n - 1]);
      var before, next := At(run, n - 1).active, At(run, n).active;
      forall id | id in next
        ensures forall w <- next[id].writes :: !InLog(w.path)
      {
        if id in before {
          assert before[id] in before.Values;
        }
      }
    }
  }

  /**
   In every interleaving of transactions and users' writes the local store is what replaying the
   committed transactions in commit order gives: no write is performed early, in part, twice or at all
   for a transaction that does not commit.
   */
  lemma {:induction false} StoreIsReplay(run: seq<Action>, n: nat)
    requires n <= |run| && AllOutsideLog(run)
    ensures Data(At(run, n).store) == Replay(run, n)
    decreases n
  {
    if n > 0 {
      StoreIsReplay(run, n - 1);
      var s, a := At(run, n - 1), run[n - 1];
      if a.Commit? {
        ActiveOutsideLog(run, n - 1);
        CommitOnData(s, a.id);
        CommitsIffAllYes(run, a.id, n - 1);
      } else {
        OtherStepsOnData(s, a);
      }
    }
  }

  predicate LastLocal(writes: seq<Write>, path: string, k: nat, n: nat)
    requires n <= |writes|
  {
    && k < n && writes[k].node in {Missing, Null, Url("local")} && writes[k].path == path
    && forall j | k < j < n :: writes[j].node in {Missing, Null, Url("local")} ==> writes[j].path != path
  }

  /** Performing a transaction leaves at each path its last local write there, and every other path alone. */
  lemma {:induction false} PerformMeans(store: Store, writes: seq<Write>, n: nat, path: string)
    requires n <= |writes|
    ensures forall k | 0 <= k < n && LastLocal(writes, path, k, n) ::
      path in Perform(store, writes, n) && Perform(store, writes, n)[path] == Text(writes[k].content)
    ensures (forall k | 0 <= k < n && writes[k].node in {Missing, Null, Url("local")} :: writes[k].path != path) ==>
      (path in Perform(store, writes, n) <==> path in store)
      && (path in store ==> Perform(store, writes, n)[path] == store[path])
  {
    if forall k | 0 <= k < n && writes[k].node in {Missing, Null, Url("local")} :: writes[k].path != path {
      PerformElsewhere(store, writes, n, path);
    }
    forall k | 0 <= k < n && LastLocal(writes, path, k, n)
      ensures path in Perform(store, writes, n) && Perform(store, writes, n)[path] == Text(writes[k].content)
    {
      PerformAt(store, writes, n, path, k);
    }
  }

  lemma {:induction false} PerformAt(store: Store, writes: seq<Write>, n: nat, path: string, k: nat)
    requires k < n <= |writes| && LastLocal(writes, path, k, n)
    ensures path in Perform(store, writes, n) && Perform(store, writes, n)[path] == Text(writes[k].content)
    decreases n
  {
    if k < n - 1 {
      PerformAt(store, writes, n - 1, path, k);
    }
  }

  lemma {:induction false} PerformElsewhere(store: Store, writes: seq<Write>, n: nat, path: string)
    requires n <= |writes|
    requires forall k | 0 <= k < n && writes[k].node in {Missing, Null, Url("local")} :: writes[k].path != path
    ensures path in Perform(store, writes, n) <==> path in store
    ensures path in store ==> Perform(store, writes, n)[path] == store[path]
    decreases n
  {
    if n > 0 {
      PerformElsewhere(store, writes, n - 1, path);
    }
  }

  /* ---------- the log ---------- */

  function Logged(store: Store, id: string): Option<Txn> {
    if LogPath(id) in store && store[LogPath(id)].Record? then Some(store[LogPath(id)].txn) else None
  }

  predicate Decided(txn: Txn) {
    txn.status in {Committed, Aborted}
  }

  ghost predicate LogMatches(s: State) {
    && (forall id <- s.active :: Logged(s.store, id) == Some(s.active[id]) && !Decided(s.active[id]))
    && (forall txn <- s.active.Values, w <- txn.writes :: !InLog(w.path))
  }

  lemma {:induction false} LoggedElsewhere(store: Store, id: string, path: string, value: Value)
    requires path != LogPath(id)
    ensures Logged(store[path := value], id) == Logged(store, id)
  {
  }

  lemma {:induction false} PerformKeepsLog(store: Store, writes: seq<Write>, n: nat, id: string)
    requires n <= |writes| && forall w <- writes :: !InLog(w.path)
    ensures Logged(Perform(store, writes, n), id) == Logged(store, id)
    decreases n
  {
    if n > 0 {
      PerformKeepsLog(store, writes, n - 1, id);
      LogPathsDiffer(id, id);
      LoggedElsewhere(Perform(store, writes, n - 1), id, writes[n - 1].path, Text(writes[n - 1].content));
    }
  }

  lemma {:induction false} LoggingOther(store: Store, id: string, other: string, txn: Txn)
    ensures Logged(store[LogPath(other) := Record(txn)], id) == if id == other then Some(txn) else Logged(store, id)
  {
    LogPathsDiffer(id, other);
  }

  /** A step changes only the log record of the transaction it concerns, and none if that one is not live. */
  lemma {:induction false} StepOnLog(s: State, a: Action, id: string)
    requires OutsideLog(a) && LogMatches(s)
    requires !Concerns(a, id) || (!a.Begin? && id !in s.active)
    ensures Logged(Step(s, a).store, id) == Logged(s.store, id)
  {
    match a
    case UserWrite(path, content) =>
      LogPathsDiffer(id, id);
    case Begin(other, writes) =>
      LoggingOther(s.store, id, other, Txn(writes, Preparing, map[]));
    case Prepare(other, answers) =>
      if other in s.active {
        LoggingOther(s.store, id, other, Answered(s.active[other].writes, answers));
      }
    case Commit(other) =>
      if other in s.active {
        var txn := s.active[other];
        assert txn in s.active.Values;
        PerformKeepsLog(s.store, txn.writes, |txn.writes|, id);
        LoggingOther(Perform(s.store, txn.writes, |txn.writes|), id, other, txn.(status := Committed));
        LoggingOther(s.store, id, other, txn.(status := Aborted));
      }
    case Abort(other) =>
      if other in s.active {
        LoggingOther(s.store, id, other, s.active[other].(status := Aborted));
      }
  }

  lemma {:induction false} StepKeepsLogMatching(s: State, a: Action)
    requires OutsideLog(a) && LogMatches(s)
    ensures LogMatches(Step(s, a))
  {
    var next := Step(s, a);
    forall id | id in next.active
      ensures Logged(next.store, id) == Some(next.active[id]) && !Decided(next.active[id])
      ensures forall w <- next.active[id].writes :: !InLog(w.path)
    {
      if id in s.active {
        assert s.active[id] in s.active.Values;
      }
      if !Concerns(a, id) {
        StepOnLog(s, a, id);
      }
    }
  }

  lemma {:induction false} RunKeepsLogMatching(run: seq<Action>, n: nat)
    requires n <= |run| && AllOutsideLog(run)
    ensures LogMatches(At(run, n))
    decreases n
  {
    if n > 0 {
      RunKeepsLogMatching(run, n - 1);
      StepKeepsLogMatching(At(run, n - 1), run[n - 1]);
    }
  }

  /** Transaction ids are never used twice. */
  ghost predicate Fresh(run: seq<Action>) {
    forall i, j | 0 <= i < j < |run| :: run[i].Begin? && run[j].Begin? ==> run[i].id != run[j].id
  }

  /** Once a transaction's fate is in the log, its record never changes again. */
  lemma {:induction false} DecisionSticks(run: seq<Action>, id: string, b: nat, i: nat, n: nat)
    requires b < i <= n <= |run| && Fresh(run) && AllOutsideLog(run)
    requires run[b].Begin? && run[b].id == id
    requires Logged(At(run, i).store, id).Some? && Decided(Logged(At(run, i).store, id).value)
    ensures Logged(At(run, n).store, id) == Logged(At(run, i).store, id)
    decreases n
  {
    if i < n {
      DecisionSticks(run, id, b, i, n - 1);
      RunKeepsLogMatching(run, n - 1);
      StepOnLog(At(run, n - 1), run[n - 1], id);
    }
  }

  /* ---------- the verdict ---------- */

  predicate Decides(run: seq<Action>, id: string, b: nat, i: nat)
    requires i < |run|
  {
    OpenSince(run, id, b, i) && Concerns(run[i], id) && (run[i].Commit? || run[i].Abort?)
  }

  lemma {:induction false} FirstDecision(run: seq<Action>, id: string, b: nat, n: nat) returns (i: nat)
    requires b < n <= |run| && Fresh(run) && run[b].Begin? && run[b].id == id && !OpenSince(run, id, b, n)
    ensures b < i < n && Decides(run, id, b, i)
    decreases n
  {
    if OpenSince(run, id, b, n - 1) {
      i := n - 1;
    } else {
      i := FirstDecision(run, id, b, n - 1);
    }
  }

  lemma {:induction false} DecisionIsLogged(run: seq<Action>, id: string, b: nat, i: nat)
    requires i < |run| && AllOutsideLog(run)
    requires Decides(run, id, b, i)
    ensures var record := Logged(At(run, i + 1).store, id);
      && record.Some? && record.value.writes == run[b].writes
      && record.value.status == if run[i].Commit? && Favoured(run, id, b, i) then Committed else Aborted
  {
    CommitsIffAllYes(run, id, i);
    var s := At(run, i);
    var txn := s.active[id];
    LoggingOther(Perform(s.store, txn.writes, |txn.writes|), id, id, txn.(status := Committed));
    LoggingOther(s.store, id, id, txn.(status := Aborted));
    if Commits(run, id, i) {
      var c: nat :| c < i && OpenSince(run, id, c, i) && Favoured(run, id, c, i);
    }
  }

  predicate CommittedBy(run: seq<Action>, id: string, b: nat, n: nat)
    requires n <= |run|
  {
    exists i :: b < i < n && Decides(run, id, b, i) && run[i].Commit? && Favoured(run, id, b, i)
  }

  /**
   In every interleaving with fresh ids the log says "committed" exactly if commit was called before any
   abort and the vote was in favour, "aborted" exactly if it was decided otherwise, and until then how far
   the transaction has come.
   */
  lemma {:induction false} Verdict(run: seq<Action>, id: string, b: nat, n: nat)
    requires b < n <= |run| && Fresh(run) && AllOutsideLog(run)
    requires run[b].Begin? && run[b].id == id
    ensures var record := Logged(At(run, n).store, id);
      && record.Some? && record.value.writes == run[b].writes
      && record.value.status ==
        if OpenSince(run, id, b, n) then (if NeverPrepared(run, id, b, n) then Preparing else Prepared)
        else if CommittedBy(run, id, b, n) then Committed
        else Aborted
  {
    if OpenSince(run, id, b, n) {
      OpenIsLogged(run, id, b, n);
    } else {
      var i := FirstDecision(run, id, b, n);
      DecisionIsLogged(run, id, b, i);
      DecisionSticks(run, id, b, i + 1, n);
      OnlyDecision(run, id, b, i, n);
    }
  }

  lemma {:induction false} OnlyDecision(run: seq<Action>, id: string, b: nat, i: nat, n: nat)
    requires b < i < n <= |run| && Decides(run, id, b, i)
    ensures CommittedBy(run, id, b, n) <==> run[i].Commit? && Favoured(run, id, b, i)
  {
    if CommittedBy(run, id, b, n) {
      var j: nat :| b < j < n && Decides(run, id, b, j) && run[j].Commit? && Favoured(run, id, b, j);
      assert j == i;
    }
  }

  lemma {:induction false} OpenIsLogged(run: seq<Action>, id: string, b: nat, n: nat)
    requires n <= |run| && AllOutsideLog(run)
    requires OpenSince(run, id, b, n)
    ensures var record := Logged(At(run, n).store, id);
      && record.Some? && record.value.writes == run[b].writes
      && record.value.status == if NeverPrepared(run, id, b, n) then Preparing else Prepared
  {
    ActiveTracksRun(run, id, n);
    RunKeepsLogMatching(run, n);
    var live := Live(At(run, n), id);
    var c: nat :| c < n && OpenSince(run, id, c, n) && Shows(run, id, c, n, live.value);
    if p: nat :| b < p < n && PreparedSince(run, id, p, n) && live.value == Answered(run[b].writes, run[p].answers) {
      PreparedOnce(run, id, b, p, p, n);
    }
  }

  /**
   A transaction prepared before its commit commits exactly when, in its last poll, each node's last
   answer was yes; one never prepared commits without being put to any vote.
   */
  lemma {:induction false} CommitNeedsVotesIffPrepared(run: seq<Action>, id: string, b: nat, i: nat)
    requires i < |run| && Fresh(run) && AllOutsideLog(run)
    requires Decides(run, id, b, i) && run[i].Commit?
    ensures var record := Logged(At(run, i + 1).store, id);
      && record.Some?
      && (NeverPrepared(run, id, b, i) ==> record.value.status == Committed)
      && (forall p: nat | b < p < i && PreparedSince(run, id, p, i) ::
        record.value.status == Committed <==> EachLastYes(run[b].writes, run[p].answers))
  {
    DecisionIsLogged(run, id, b, i);
    forall p: nat | b < p < i && PreparedSince(run, id, p, i)
      ensures Favoured(run, id, b, i) <==> EachLastYes(run[b].writes, run[p].answers)
    {
      PreparedOnce(run, id, b, p, p, i);
      if Favoured(run, id, b, i) {
        var q: nat :| b < q < i && PreparedSince(run, id, q, i) && EachLastYes(run[b].writes, run[q].answers);
        PreparedOnce(run, id, b, p, q, i);
      }
    }
  }

  /**
   The promise of the protocol, in the answers of the nodes alone: a transaction whose last poll before its commit
   is p is logged as committed exactly if in that poll every node asked said yes to the last write sent to it.
   */
  lemma {:induction false} CommittedIffLastAnswersYes(run: seq<Action>, id: string, b: nat, p: nat, i: nat)
    requires i < |run| && Fresh(run) && AllOutsideLog(run)
    requires Decides(run, id, b, i) && run[i].Commit? && b < p < i && PreparedSince(run, id, p, i)
    ensures var record := Logged(At(run, i + 1).store, id);
      record.Some? && (record.value.status == Committed <==> LastAnswersAreYes(run[b].writes, run[p].answers))
    ensures var record := Logged(At(run, i + 1).store, id);
      record.value.status != Committed ==> record.value.status == Aborted
  {
    DecisionIsLogged(run, id, b, i);
    CommitNeedsVotesIffPrepared(run, id, b, i);
    var writes, answers := run[b].writes, run[p].answers;
    AllYesIffEachLastYes(writes, answers);
    PollRecordsAnswers(writes, answers);
    RecordedVotesDecide(writes, answers, Poll(writes, answers, |writes|));
  }

  /* ---------- the coordinator object ---------- */

  class TwoPhaseCommit {
    var active: map<string, Txn>
    var store: Store

    function Model(): State
      reads this
    {
      State(active, store)
    }

    constructor ()
      ensures Model() == At([], 0)
    {
      active, store := map[], map[];
    }

    method Log(id: string, txn: Txn)
      modifies this`store
      ensures store == old(store)[LogPath(id) := Record(txn)]
    {
      store := store[LogPath(id) := Record(txn)];
    }

    method BeginTxn(id: string, writes: seq<Write>)
      modifies this
      ensures Model() == Step(old(Model()), Begin(id, writes))
    {
      var txn := Txn(writes, Preparing, map[]);
      active := active[id := txn];
      Log(id, txn);
    }

    /** Polls the nodes of the writes one after the other. */
    method Ask(writes: seq<Write>, answers: Answers) returns (votes: Votes)
      ensures votes == Poll(writes, answers, |writes|)
      ensures RecordsAnswers(writes, answers, votes) && (AllYes(votes) <==> LastAnswersAreYes(writes, answers))
    {
      votes := map[];
      for k := 0 to |writes|
        invariant votes == Poll(writes, answers, k)
      {
        var node := writes[k].node;
        if Key(node) == Some("local") {
          votes := votes[Some("local") := true];
        } else {
          votes := votes[Key(node) := node.Url? && answers(k)];
        }
      }
      PollRecordsAnswers(writes, answers);
      RecordedVotesDecide(writes, answers, votes);
    }

    method PrepareTxn(id: string, answers: Answers) returns (votes: Votes)
      modifies this
      ensures Model() == Step(old(Model()), Prepare(id, answers))
      ensures votes == if id in old(active) then Model().active[id].votes else map[]
    {
      if id !in active {
        return map[];
      }
      var txn := active[id];
      votes := Ask(txn.writes, answers);
      txn := txn.(votes := votes, status := Prepared);
      active := active[id := txn];
      Log(id, txn);
    }

    method PerformLocal(writes: seq<Write>)
      modifies this`store
      ensures store == Perform(old(store), writes, |writes|)
    {
      for k := 0 to |writes|
        invariant store == Perform(old(store), writes, k)
      {
        if writes[k].node in {Missing, Null, Url("local")} {
          store := store[writes[k].path := Text(writes[k].content)];
        }
      }
    }

    method CommitTxn(id: string) returns (committed: bool)
      modifies this
      ensures Model() == Step(old(Model()), Commit(id))
      ensures committed <==> id in old(active) && AllYes(old(active)[id].votes)
    {
      if id !in active {
        return false;
      }
      var txn := active[id];
      committed := AllYes(txn.votes);
      if committed {
        PerformLocal(txn.writes);
        txn := txn.(status := Committed);
      } else {
        txn := txn.(status := Aborted);
      }
      Log(id, txn);
      active := active - {id};
    }

    method AbortTxn(id: string)
      modifies this
      ensures Model() == Step(old(Model()), Abort(id))
    {
      if id in active {
        Log(id, active[id].(status := Aborted));
      }
      active := active - {id};
    }
  }
}
