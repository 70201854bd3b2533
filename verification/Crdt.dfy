module Crdt {
  import opened Wrappers

  /*
   Last-writer-wins replication of the alias table between nodes (net/crdt.py).

   A register says which object a path points to and carries the stamp (time, node) of the write.
   Nodes exchange registers and keep the newer one.  The class at the end is the store; the lemmas
   before it say what a node's table means, for one store and for a whole network of them.
   */

  /* ---------- stamps ---------- */

  /** Python's order on strings: code points, first difference first. */
  predicate LexLess(a: string, b: string) {
    b != "" && (a == "" || a[0] < b[0] || (a[0] == b[0] && LexLess(a[1..], b[1..])))
  }

  lemma {:induction false} LexTotal(a: string, b: string)
    ensures a == b <==> !LexLess(a, b) && !LexLess(b, a)
    ensures !(LexLess(a, b) && LexLess(b, a))
  {
    if a != "" && b != "" && a[0] == b[0] {
      LexTotal(a[1..], b[1..]);
      assert a == [a[0]] + a[1..] && b == [b[0]] + b[1..];
    }
  }

  lemma {:induction false} LexTransitive(a: string, b: string, c: string)
    requires LexLess(a, b) && LexLess(b, c)
    ensures LexLess(a, c)
  {
    if a != "" && a[0] == b[0] == c[0] {
      LexTransitive(a[1..], b[1..], c[1..]);
    }
  }

  /** Where two strings first differ, a has the smaller code point or has ended. */
  ghost predicate ComesBefore(a: string, b: string) {
    exists k: nat :: k <= |a| && k < |b| && a[..k] == b[..k] && (k == |a| || a[k] < b[k])
  }

  lemma {:induction false} LexLessIff(a: string, b: string)
    ensures LexLess(a, b) <==> ComesBefore(a, b)
  {
    if a == "" || b == "" {
      assert a == "" && b != "" ==> a[..0] == b[..0];
    } else if a[0] != b[0] {
      assert a[..0] == b[..0];
    } else {
      LexLessIff(a[1..], b[1..]);
      if k: nat :| k <= |a| && k < |b| && a[..k] == b[..k] && (k == |a| || a[k] < b[k]) {
        assert a[1..][..k - 1] == a[..k][1..] && b[1..][..k - 1] == b[..k][1..];
      }
      if k: nat :| k <= |a| - 1 && k < |b| - 1 && a[1..][..k] == b[1..][..k] && (k == |a| - 1 || a[k + 1] < b[k + 1]) {
        assert a[..k + 1] == [a[0]] + a[1..][..k] && b[..k + 1] == [b[0]] + b[1..][..k];
      }
    }
  }

  datatype Register = Register(path: string, oid: string, ts: real, nodeId: string)

  /** a's stamp is strictly above b's: later, or as late and from a greater node. */
  predicate Newer(a: Register, b: Register) {
    a.ts > b.ts || (a.ts == b.ts && LexLess(b.nodeId, a.nodeId))
  }

  predicate SameStamp(a: Register, b: Register) {
    a.ts == b.ts && a.nodeId == b.nodeId
  }

  lemma {:induction false} StampsAreOrdered(a: Register, b: Register, c: Register)
    ensures !(Newer(a, b) && Newer(b, a))
    ensures SameStamp(a, b) <==> !Newer(a, b) && !Newer(b, a)
    ensures !Newer(a, b) && !Newer(b, c) ==> !Newer(a, c)
  {
    LexTotal(a.nodeId, b.nodeId);
    LexTotal(b.nodeId, c.nodeId);
    LexTotal(a.nodeId, c.nodeId);
    if LexLess(a.nodeId, b.nodeId) && LexLess(b.nodeId, c.nodeId) {
      LexTransitive(a.nodeId, b.nodeId, c.nodeId);
    }
  }

  /** The winner; the receiver keeps its own register on a tie. */
  function Merge(self: Register, other: Register): Register {
    if other.ts > self.ts then other
    else if other.ts == self.ts && LexLess(self.nodeId, other.nodeId) then other
    else self
  }

  /** The later write wins, and of two at one time that of the node with the greater name. */
  lemma {:induction false} LaterWins(a: Register, b: Register)
    ensures Merge(a, b) == if b.ts > a.ts || (b.ts == a.ts && ComesBefore(a.nodeId, b.nodeId)) then b else a
  {
    LexLessIff(a.nodeId, b.nodeId);
  }

  /** Merging is idempotent and associative always, and commutative exactly when one stamp means one register. */
  lemma {:induction false} MergeLaws(a: Register, b: Register, c: Register)
    ensures Merge(a, a) == a
    ensures Merge(Merge(a, b), c) == Merge(a, Merge(b, c))
    ensures Merge(a, b) == Merge(b, a) <==> (SameStamp(a, b) ==> a == b)
  {
    StampsAreOrdered(a, b, c);
    StampsAreOrdered(c, b, a);
    StampsAreOrdered(b, a, c);
    StampsAreOrdered(b, c, a);
    StampsAreOrdered(a, c, b);
    StampsAreOrdered(c, a, b);
  }

  /* ---------- register tables ---------- */

  type Table = map<string, Register>

  predicate Keyed(m: Table) {
    forall p <- m :: m[p].path == p
  }

  function MergeInto(m: Table, r: Register): Table {
    if r.path !in m || Newer(r, m[r.path]) then m[r.path := r] else m
  }

  /** Receiving registers one at a time, in the order of the list. */
  function MergeAll(m: Table, rs: seq<Register>): Table {
    if rs == [] then m else MergeInto(MergeAll(m, rs[..|rs| - 1]), rs[|rs| - 1])
  }

  /** The pointwise winner of two tables. */
  function Join(m: Table, other: Table): Table {
    map p | p in m.Keys + other.Keys ::
      if p !in other then m[p] else if p !in m then other[p] else Merge(m[p], other[p])
  }

  /** What a node exports: the registers written at or after a time. */
  function Since(m: Table, ts: real): Table {
    map p | p in m && m[p].ts >= ts :: m[p]
  }

  /** rs lists the registers of delta, in any order and any number of times each. */
  ghost predicate Lists(rs: seq<Register>, delta: Table) {
    && (forall r <- rs :: r.path in delta && delta[r.path] == r)
    && (forall p <- delta :: delta[p] in rs)
  }

  /** The part of a delta that the list rs has delivered. */
  function Arrived(delta: Table, rs: seq<Register>): Table {
    map p | p in delta && delta[p] in rs :: delta[p]
  }

  lemma {:induction false} JoinOneMore(m: Table, before: Table, r: Register)
    requires r.path in before ==> before[r.path] == r
    ensures MergeInto(Join(m, before), r) == Join(m, before[r.path := r])
  {
    if r.path in before && r.path in m {
      StampsAreOrdered(r, m[r.path], r);
    }
    var one, all := MergeInto(Join(m, before), r), Join(m, before[r.path := r]);
    assert one.Keys == all.Keys;
    assert forall p <- all :: one[p] == all[p];
  }

  lemma {:induction false} ArrivedOneMore(delta: Table, front: seq<Register>, r: Register)
    requires Keyed(delta) && r.path in delta && delta[r.path] == r
    ensures Arrived(delta, front + [r]) == Arrived(delta, front)[r.path := r]
  {
  }

  lemma {:induction false} PartialDelivery(m: Table, rs: seq<Register>, delta: Table)
    requires Keyed(delta)
    requires forall r <- rs :: r.path in delta && delta[r.path] == r
    ensures MergeAll(m, rs) == Join(m, Arrived(delta, rs))
    decreases |rs|
  {
    if rs == [] {
      assert Join(m, map[]) == m;
    } else {
      var front, r := rs[..|rs| - 1], rs[|rs| - 1];
      PartialDelivery(m, front, delta);
      JoinOneMore(m, Arrived(delta, front), r);
      ArrivedOneMore(delta, front, r);
      assert rs == front + [r];
    }
  }

  /** Order, batching and duplication do not matter: receiving a delta is joining it. */
  lemma {:induction false} DeliveryIsJoin(m: Table, rs: seq<Register>, delta: Table)
    requires Keyed(delta) && Lists(rs, delta)
    ensures MergeAll(m, rs) == Join(m, delta)
  {
    PartialDelivery(m, rs, delta);
    assert Arrived(delta, rs) == delta;
  }

  /** m holds, for each path, a register of past that nothing in past beats. */
  ghost predicate IsJoin(m: Table, past: set<Register>) {
    && (forall p <- m :: m[p] in past && m[p].path == p)
    && (forall r <- past :: r.path in m && !Newer(r, m[r.path]))
  }

  ghost predicate UniqueStamps(past: set<Register>) {
    forall r <- past, s <- past :: r.path == s.path && SameStamp(r, s) ==> r == s
  }

  /** With unique stamps, what has been received determines the table. */
  lemma {:induction false} JoinIsDetermined(m: Table, other: Table, past: set<Register>)
    requires IsJoin(m, past) && IsJoin(other, past) && UniqueStamps(past)
    ensures m == other
  {
    forall p | p in m
      ensures p in other && m[p] == other[p]
    {
      assert m[p] in past;
      assert other[p] in past;
      StampsAreOrdered(m[p], other[p], m[p]);
    }
    assert forall p <- other :: other[p] in past;
  }

  lemma {:induction false} JoinOfJoins(m: Table, past: set<Register>, other: Table, otherPast: set<Register>)
    requires IsJoin(m, past) && IsJoin(other, otherPast)
    ensures IsJoin(Join(m, other), past + otherPast)
  {
    var both := Join(m, other);
    forall r | r in past + otherPast
      ensures r.path in both && !Newer(r, both[r.path])
    {
      var p := r.path;
      if p in m && p in other {
        StampsAreOrdered(r, m[p], other[p]);
        StampsAreOrdered(r, other[p], m[p]);
        StampsAreOrdered(m[p], other[p], m[p]);
      }
    }
  }

  /**
   A local write overwrites without comparing.  It keeps the table the join of what the node has seen
   exactly when the new stamp is not below the register it replaces.
   */
  lemma {:induction false} WriteKeepsJoin(m: Table, past: set<Register>, r: Register)
    requires IsJoin(m, past)
    ensures IsJoin(m[r.path := r], past + {r}) <==> (r.path in m ==> !Newer(m[r.path], r))
  {
    var after := m[r.path := r];
    if r.path in m {
      assert m[r.path] in past + {r};
      if !Newer(m[r.path], r) {
        forall s | s in past + {r}
          ensures s.path in after && !Newer(s, after[s.path])
        {
          StampsAreOrdered(s, m[r.path], r);
          StampsAreOrdered(r, r, r);
        }
      }
    } else {
      StampsAreOrdered(r, r, r);
    }
  }

  /* ---------- one exchange between two nodes ---------- */

  /** Every path both tables hold under one stamp is the same register. */
  ghost predicate StampsAgree(m: Table, other: Table) {
    forall p <- m :: p in other && SameStamp(m[p], other[p]) ==> m[p] == other[p]
  }

  /**
   A full exchange (pull everything, then push everything) leaves the puller at the join, and leaves
   the two nodes equal exactly when no path carries two registers under one stamp.
   */
  lemma {:induction false} FullExchange(m: Table, other: Table)
    ensures var pulled := Join(m, other);
      (Join(other, pulled) == pulled <==> StampsAgree(m, other))
  {
    var pulled := Join(m, other);
    var pushed := Join(other, pulled);
    assert pushed.Keys == pulled.Keys;
    forall p | p in pulled
      ensures pushed[p] == pulled[p] <==> (p in m && p in other && SameStamp(m[p], other[p]) ==> m[p] == other[p])
    {
      if p in m && p in other {
        StampsAreOrdered(m[p], other[p], m[p]);
        StampsAreOrdered(m[p], m[p], m[p]);
        StampsAreOrdered(other[p], other[p], other[p]);
      } else if p in other {
        StampsAreOrdered(other[p], other[p], other[p]);
      }
    }
    if pushed == pulled {
      forall p | p in m && p in other && SameStamp(m[p], other[p])
        ensures m[p] == other[p]
      {
        assert p in pulled;
      }
    }
  }

  /**
   A pull that asks only for registers written since the last exchange loses nothing exactly when
   every older register of the peer is already matched or beaten here.
   */
  lemma {:induction false} FilteredPullIsFull(m: Table, other: Table, since: real)
    ensures Join(m, Since(other, since)) == Join(m, other)
      <==> forall p <- other :: other[p].ts < since ==> p in m && !Newer(other[p], m[p])
  {
    var part, full := Join(m, Since(other, since)), Join(m, other);
    if part == full {
      forall p | p in other && other[p].ts < since
        ensures p in m && !Newer(other[p], m[p])
      {
        assert p in full;
        assert p in part;
        StampsAreOrdered(other[p], m[p], m[p]);
      }
    } else if forall p <- other :: other[p].ts < since ==> p in m && !Newer(other[p], m[p]) {
      assert part.Keys == full.Keys;
      assert forall p <- full :: part[p] == full[p];
    }
  }

  /* ---------- whole networks ---------- */

  /** A table together with the registers its node has written or received. */
  datatype Replica = Replica(table: Table, past: set<Register>)

  /**
   All nodes of a network.  The histories and `written` (every write anywhere) are kept for the statements
   below and influence no step.
   */
  datatype Network = Network(nodes: map<string, Replica>, written: set<Register>)

  /**
   A node writes, or receives a list of registers: a whole export, one filtered by time, the part of one
   that arrived before the connection broke, one relayed by others, late, repeated or out of order.
   */
  datatype Action =
    | Write(node: string, path: string, oid: string, ts: real)
    | Deliver(node: string, rs: seq<Register>)

  /** A writer's clock is ahead of the register it replaces; what arrives has been written somewhere. */
  ghost predicate Enabled(n: Network, a: Action) {
    && a.node in n.nodes
    && match a {
      case Write(node, path, oid, ts) =>
        path in n.nodes[node].table ==> Newer(Register(path, oid, ts, node), n.nodes[node].table[path])
      case Deliver(_, rs) => forall r <- rs :: r in n.written
    }
  }

  function Received(rs: seq<Register>): (received: set<Register>)
    ensures forall r :: r in received <==> r in rs
  {
    if rs == [] then {}
    else
      assert rs == rs[..|rs| - 1] + [rs[|rs| - 1]];
      Received(rs[..|rs| - 1]) + {rs[|rs| - 1]}
  }

  function Step(n: Network, a: Action): Network
    requires a.node in n.nodes
  {
    var Replica(table, past) := n.nodes[a.node];
    match a
    case Write(node, path, oid, ts) =>
      var r := Register(path, oid, ts, node);
      Network(n.nodes[node := Replica(table[path := r], past + {r})], n.written + {r})
    case Deliver(node, rs) =>
      n.(nodes := n.nodes[node := Replica(MergeAll(table, rs), past + Received(rs))])
  }

  function Blank(nodes: set<string>): Network {
    Network(map x | x in nodes :: Replica(map[], {}), {})
  }

  /** The successive networks of a run that starts with empty nodes. */
  ghost predicate IsRun(nodes: set<string>, acts: seq<Action>, states: seq<Network>) {
    && |states| == |acts| + 1
    && states[0] == Blank(nodes)
    && forall i | 0 <= i < |acts| :: Enabled(states[i], acts[i]) && states[i + 1] == Step(states[i], acts[i])
  }

  ghost predicate Faithful(r: Replica, written: set<Register>) {
    IsJoin(r.table, r.past) && r.past <= written
  }

  ghost predicate Invariant(n: Network) {
    && (forall x <- n.nodes :: Faithful(n.nodes[x], n.written))
    && KnowsOwnWrites(n)
    && UniqueStamps(n.written)
  }

  /** A write gets a stamp no earlier write to the path has: the node has seen all its own writes. */
  lemma {:induction false} WriteIsUnique(n: Network, a: Action, r: Register, s: Register)
    requires Invariant(n) && Enabled(n, a) && a.Write? && r == Register(a.path, a.oid, a.ts, a.node)
    requires s in n.written && s.path == r.path
    ensures !SameStamp(r, s)
  {
    if SameStamp(r, s) {
      assert s in n.nodes[a.node].past;
      assert Faithful(n.nodes[a.node], n.written);
      StampsAreOrdered(r, s, n.nodes[a.node].table[a.path]);
    }
  }

  lemma {:induction false} FaithfulWrite(replica: Replica, written: set<Register>, r: Register)
    requires Faithful(replica, written)
    requires r.path in replica.table ==> Newer(r, replica.table[r.path])
    ensures Faithful(Replica(replica.table[r.path := r], replica.past + {r}), written + {r})
  {
    WriteKeepsJoin(replica.table, replica.past, r);
    if r.path in replica.table {
      StampsAreOrdered(r, replica.table[r.path], r);
    }
  }

  lemma {:induction false} MergeKeepsJoin(m: Table, past: set<Register>, r: Register)
    requires IsJoin(m, past)
    ensures IsJoin(MergeInto(m, r), past + {r})
  {
    StampsAreOrdered(r, r, r);
    if r.path in m && Newer(r, m[r.path]) {
      forall s | s in past && s.path == r.path
        ensures !Newer(s, r)
      {
        StampsAreOrdered(s, m[r.path], r);
        StampsAreOrdered(r, m[r.path], s);
      }
    }
  }

  /** Whatever list of registers arrives, the table stays the newest of all that was written or received. */
  lemma {:induction false} ArrivalKeepsJoin(m: Table, past: set<Register>, rs: seq<Register>)
    requires IsJoin(m, past)
    ensures IsJoin(MergeAll(m, rs), past + Received(rs))
    decreases rs
  {
    if rs == [] {
      assert past + Received(rs) == past;
    } else {
      var front, last := rs[..|rs| - 1], rs[|rs| - 1];
      ArrivalKeepsJoin(m, past, front);
      MergeKeepsJoin(MergeAll(m, front), past + Received(front), last);
      assert past + Received(rs) == past + Received(front) + {last};
    }
  }

  lemma {:induction false} StepKeepsFaithful(n: Network, a: Action)
    requires Invariant(n) && Enabled(n, a)
    ensures forall x <- Step(n, a).nodes :: Faithful(Step(n, a).nodes[x], Step(n, a).written)
  {
    var n' := Step(n, a);
    assert Faithful(n.nodes[a.node], n.written);
    forall x | x in n'.nodes
      ensures Faithful(n'.nodes[x], n'.written)
    {
      assert Faithful(n.nodes[x], n.written);
      if x == a.node {
        match a
        case Write(_, _, _, _) =>
          FaithfulWrite(n.nodes[x], n.written, Register(a.path, a.oid, a.ts, a.node));
        case Deliver(_, _) =>
          ArrivalKeepsJoin(n.nodes[x].table, n.nodes[x].past, a.rs);
      }
    }
  }

  lemma {:induction false} StepKeepsStamps(n: Network, a: Action)
    requires Invariant(n) && Enabled(n, a)
    ensures UniqueStamps(Step(n, a).written)
  {
    if a.Write? {
      var r := Register(a.path, a.oid, a.ts, a.node);
      forall s | s in n.written && s.path == r.path
        ensures !SameStamp(r, s)
      {
        WriteIsUnique(n, a, r, s);
      }
    }
  }

  ghost predicate KnowsOwnWrites(n: Network) {
    forall r <- n.written :: r.nodeId in n.nodes && r in n.nodes[r.nodeId].past
  }

  lemma {:induction false} StepKeepsOwnWrites(n: Network, a: Action)
    requires KnowsOwnWrites(n) && a.node in n.nodes
    ensures KnowsOwnWrites(Step(n, a))
  {
    var n' := Step(n, a);
    forall r | r in n'.written
      ensures r.nodeId in n'.nodes && r in n'.nodes[r.nodeId].past
    {
      assert r in n.written || r.nodeId == a.node;
    }
  }

  lemma {:induction false} EqualHistories(x: Replica, y: Replica, written: set<Register>)
    requires Faithful(x, written) && Faithful(y, written) && UniqueStamps(written) && x.past == y.past
    ensures x.table == y.table
  {
    JoinIsDetermined(x.table, y.table, x.past);
  }

  /**
   Strong eventual consistency.  At every point of every run each node's table is the pointwise newest
   of the registers it has written or received, in whatever lists they came; stamps are unique although no
   one checks them; and nodes with the same registers behind them hold equal tables.
   */
  lemma {:induction false} Convergence(nodes: set<string>, acts: seq<Action>, states: seq<Network>, i: nat)
    requires IsRun(nodes, acts, states) && i < |states|
    ensures Invariant(states[i])
    ensures var nodes := states[i].nodes;
      forall x <- nodes, y <- nodes :: nodes[x].past == nodes[y].past ==> nodes[x].table == nodes[y].table
  {
    if i > 0 {
      Convergence(nodes, acts, states, i - 1);
      assert Enabled(states[i - 1], acts[i - 1]) && states[i] == Step(states[i - 1], acts[i - 1]);
      StepKeepsFaithful(states[i - 1], acts[i - 1]);
      StepKeepsStamps(states[i - 1], acts[i - 1]);
      StepKeepsOwnWrites(states[i - 1], acts[i - 1]);
    }
    var n := states[i];
    forall x, y | x in n.nodes && y in n.nodes && n.nodes[x].past == n.nodes[y].past
      ensures n.nodes[x].table == n.nodes[y].table
    {
      EqualHistories(n.nodes[x], n.nodes[y], n.written);
    }
  }

  /** No register a node has written or received is later than the one it holds for the path. */
  lemma {:induction false} LatestIsHeld(nodes: set<string>, acts: seq<Action>, states: seq<Network>, i: nat,
                                        x: string, r: Register)
    requires IsRun(nodes, acts, states) && i < |states| && x in states[i].nodes && r in states[i].nodes[x].past
    ensures var Replica(table, past) := states[i].nodes[x];
      && r.path in table && table[r.path] in past && table[r.path].path == r.path
      && var held := table[r.path];
         held.ts > r.ts || (held.ts == r.ts && (held.nodeId == r.nodeId || ComesBefore(r.nodeId, held.nodeId)))
  {
    Convergence(nodes, acts, states, i);
    assert Faithful(states[i].nodes[x], states[i].written);
    var held := states[i].nodes[x].table[r.path];
    LexTotal(r.nodeId, held.nodeId);
    LexLessIff(r.nodeId, held.nodeId);
  }

  /**
   Every export can be delivered at any later point of a run: whichever node makes it, from whatever time
   on, in any order, and cut off anywhere.
   */
  lemma {:induction false} ExportsCanArrive(nodes: set<string>, acts: seq<Action>, states: seq<Network>,
                                            i: nat, j: nat, from: string, to: string,
                                            since: real, rs: seq<Register>, cut: nat)
    requires IsRun(nodes, acts, states) && i <= j < |states| && from in states[i].nodes && to in states[j].nodes
    requires Lists(rs, Since(states[i].nodes[from].table, since)) && cut <= |rs|
    ensures Enabled(states[j], Deliver(to, rs[..cut]))
  {
    Convergence(nodes, acts, states, i);
    WrittenGrows(nodes, acts, states, i, j);
    assert Faithful(states[i].nodes[from], states[i].written);
    forall r | r in rs[..cut]
      ensures r in states[j].written
    {
      assert r in rs;
    }
  }

  lemma {:induction false} WrittenGrows(nodes: set<string>, acts: seq<Action>, states: seq<Network>, i: nat, j: nat)
    requires IsRun(nodes, acts, states) && i <= j < |states|
    ensures states[i].written <= states[j].written
    decreases j
  {
    if i < j {
      WrittenGrows(nodes, acts, states, i, j - 1);
      assert states[j - 1 + 1] == Step(states[j - 1], acts[j - 1]);
    }
  }

  /**
   The filter loses a relayed register in a run: n3 writes at time 5; n1 pulls all of n2's registers at
   time 10; n3's write then reaches n2; and n1's next pull from n2, which asks for what was written since
   time 10, brings it nothing.
   */
  lemma {:induction false} RelayedRegisterIsLost() returns (acts: seq<Action>, states: seq<Network>)
    ensures IsRun({"n1", "n2", "n3"}, acts, states) && |acts| == 4
    ensures forall i | 0 <= i < 5 :: states[i].nodes.Keys == {"n1", "n2", "n3"}
    ensures acts[0] == Write("n3", "/a", "o1", 5.0)
    ensures acts[1].Deliver? && acts[1].node == "n1" && Lists(acts[1].rs, Since(states[1].nodes["n2"].table, 0.0))
    ensures acts[2].Deliver? && acts[2].node == "n2" && Lists(acts[2].rs, Since(states[2].nodes["n3"].table, 0.0))
    ensures acts[3].Deliver? && acts[3].node == "n1" && Lists(acts[3].rs, Since(states[3].nodes["n2"].table, 10.0))
    ensures "/a" in states[4].nodes["n2"].table && "/a" !in states[4].nodes["n1"].table
  {
    var r := Register("/a", "o1", 5.0, "n3");
    var none, has := Replica(map[], {}), Replica(map["/a" := r], {r});
    acts := [Write("n3", "/a", "o1", 5.0), Deliver("n1", []), Deliver("n2", [r]), Deliver("n1", [])];
    var start := Network(map["n1" := none, "n2" := none, "n3" := none], {});
    var written := Network(map["n1" := none, "n2" := none, "n3" := has], {r});
    var relayed := Network(map["n1" := none, "n2" := has, "n3" := has], {r});
    states := [start, written, written, relayed, relayed];
    NothingArrives(written, "n1");
    NothingArrives(relayed, "n1");
    assert start == Blank({"n1", "n2", "n3"});
    assert Step(start, acts[0]) == written by {
      assert none.past + {r} == {r} && none.table["/a" := r] == has.table;
      assert Step(start, acts[0]).nodes == written.nodes && Step(start, acts[0]).written == written.written;
    }
    OneArrives(written, "n2", r);
    assert Step(written, acts[2]).nodes == relayed.nodes;
  }

  /**
   So does a cut: n2 writes at time 5; n1's pull of all of n2's registers breaks off at time 10 before any has
   arrived; and n1's next pull from n2, which asks for what was written since time 10, brings it nothing.
   */
  lemma {:induction false} CutPullIsLost()
    returns (acts: seq<Action>, states: seq<Network>, sent: seq<Register>)
    ensures IsRun({"n1", "n2"}, acts, states) && |acts| == 3
    ensures forall i | 0 <= i < 4 :: states[i].nodes.Keys == {"n1", "n2"}
    ensures acts[0] == Write("n2", "/a", "o1", 5.0)
    ensures Lists(sent, Since(states[1].nodes["n2"].table, 0.0)) && acts[1] == Deliver("n1", sent[..0])
    ensures acts[2].Deliver? && acts[2].node == "n1" && Lists(acts[2].rs, Since(states[2].nodes["n2"].table, 10.0))
    ensures "/a" in states[3].nodes["n2"].table && "/a" !in states[3].nodes["n1"].table
  {
    var r := Register("/a", "o1", 5.0, "n2");
    var none, has := Replica(map[], {}), Replica(map["/a" := r], {r});
    sent, acts := [r], [Write("n2", "/a", "o1", 5.0), Deliver("n1", []), Deliver("n1", [])];
    var start, written := Network(map["n1" := none, "n2" := none], {}), Network(map["n1" := none, "n2" := has], {r});
    states := [start, written, written, written];
    NothingArrives(written, "n1");
    assert start == Blank({"n1", "n2"});
    assert Step(start, acts[0]) == written by {
      assert none.past + {r} == {r} && none.table["/a" := r] == has.table;
      assert Step(start, acts[0]).nodes == written.nodes && Step(start, acts[0]).written == written.written;
    }
    assert sent[..0] == [];
  }

  lemma {:induction false} OneArrives(n: Network, x: string, r: Register)
    requires x in n.nodes && n.nodes[x] == Replica(map[], {})
    ensures Step(n, Deliver(x, [r])) == n.(nodes := n.nodes[x := Replica(map[r.path := r], {r})])
  {
    assert [r][..0] == [];
    assert MergeAll(map[], [r]) == map[r.path := r];
    assert n.nodes[x].past + Received([r]) == {r};
  }

  lemma {:induction false} NothingArrives(n: Network, x: string)
    requires x in n.nodes
    ensures Step(n, Deliver(x, [])) == n
  {
    assert n.nodes[x].past + Received([]) == n.nodes[x].past;
    assert Step(n, Deliver(x, [])).nodes == n.nodes;
  }

  lemma {:induction false} StampsAgreeFromHistory(mine: Replica, theirs: Replica, written: set<Register>)
    requires Faithful(mine, written) && Faithful(theirs, written) && UniqueStamps(written)
    ensures StampsAgree(mine.table, theirs.table)
  {
    forall p | p in mine.table && p in theirs.table && SameStamp(mine.table[p], theirs.table[p])
      ensures mine.table[p] == theirs.table[p]
    {
      assert mine.table[p] in written && theirs.table[p] in written;
    }
  }

  lemma {:induction false} SinceStart(m: Table)
    requires forall p <- m :: m[p].ts >= 0.0
    ensures Since(m, 0.0) == m
  {
  }

  lemma {:induction false} ReplicaExchange(mine: Replica, theirs: Replica, written: set<Register>)
    requires Faithful(mine, written) && Faithful(theirs, written) && UniqueStamps(written)
    requires forall r <- written :: r.ts >= 0.0
    ensures ExchangeReachesJoin(mine, theirs)
  {
    StampsAgreeFromHistory(mine, theirs, written);
    FullExchange(mine.table, theirs.table);
    JoinOfJoins(mine.table, mine.past, theirs.table, theirs.past);
    SinceStart(theirs.table);
    SinceStart(Join(mine.table, theirs.table));
  }

  /** A pull and then a push, both from time 0, leave both sides at the newest of what either has seen. */
  ghost predicate ExchangeReachesJoin(mine: Replica, theirs: Replica) {
    var pulled := Join(mine.table, Since(theirs.table, 0.0));
    && Join(theirs.table, Since(pulled, 0.0)) == pulled
    && IsJoin(pulled, mine.past + theirs.past)
  }

  lemma {:induction false} FullExchangeInRun(nodes: set<string>, acts: seq<Action>, states: seq<Network>,
                                             i: nat, x: string, y: string)
    requires IsRun(nodes, acts, states) && i < |states| && x in states[i].nodes && y in states[i].nodes
    requires forall r <- states[i].written :: r.ts >= 0.0
    ensures ExchangeReachesJoin(states[i].nodes[x], states[i].nodes[y])
  {
    Convergence(nodes, acts, states, i);
    ReplicaExchange(states[i].nodes[x], states[i].nodes[y], states[i].written);
  }

  /* ---------- the store ---------- */

  datatype SyncStats = SyncStats(received: nat, sent: nat, conflicts: nat, error: bool)

  /** The paths of a delta whose register the table keeps as it is. */
  function Rejected(m: Table, delta: Table): set<string> {
    set p | p in delta && p in m && !Newer(delta[p], m[p])
  }

  ghost predicate DistinctPaths(rs: seq<Register>) {
    forall i, j | 0 <= i < j < |rs| :: rs[i].path != rs[j].path
  }

  /** How many registers of the list are not accepted when their turn comes. */
  function Conflicts(m: Table, rs: seq<Register>): nat {
    if rs == [] then 0
    else
      var table, r := MergeAll(m, rs[..|rs| - 1]), rs[|rs| - 1];
      Conflicts(m, rs[..|rs| - 1]) + if r.path in table && !Newer(r, table[r.path]) then 1 else 0
  }

  /** Listing no path twice, the conflicts are the paths the receiver already had as new. */
  lemma {:induction false} ConflictsAreRejections(m: Table, rs: seq<Register>, delta: Table)
    requires Keyed(delta) && DistinctPaths(rs)
    requires forall r <- rs :: r.path in delta && delta[r.path] == r
    ensures Conflicts(m, rs) == |Rejected(m, Arrived(delta, rs))|
    decreases |rs|
  {
    if rs == [] {
      assert Rejected(m, Arrived(delta, rs)) == {};
    } else {
      var front, r := rs[..|rs| - 1], rs[|rs| - 1];
      ConflictsAreRejections(m, front, delta);
      PartialDelivery(m, front, delta);
      ArrivedOneMore(delta, front, r);
      assert rs == front + [r];
      var before := Arrived(delta, front);
      assert r.path !in before by {
        assert forall x <- front :: x.path != r.path;
      }
      RejectedOneMore(m, before, r);
    }
  }

  lemma {:induction false} RejectedOneMore(m: Table, before: Table, r: Register)
    requires r.path !in before
    ensures |Rejected(m, before[r.path := r])|
         == |Rejected(m, before)| + if r.path in m && !Newer(r, m[r.path]) then 1 else 0
  {
    assert Rejected(m, before[r.path := r])
        == if r.path in m && !Newer(r, m[r.path]) then Rejected(m, before) + {r.path} else Rejected(m, before);
  }

  /** Receiving a peer's delta joins it, and the conflicts are the registers the receiver had as new. */
  lemma {:induction false} DeltaIsJoined(m: Table, rs: seq<Register>, delta: Table)
    requires Keyed(delta) && Lists(rs, delta) && DistinctPaths(rs)
    ensures MergeAll(m, rs) == Join(m, delta) && Conflicts(m, rs) == |Rejected(m, delta)|
  {
    DeliveryIsJoin(m, rs, delta);
    ConflictsAreRejections(m, rs, delta);
    assert Arrived(delta, rs) == delta;
  }

  /** What of a list arrives before a cut, if there is one. */
  function Got(rs: seq<Register>, cut: Option<nat>): seq<Register> {
    if cut.Some? && cut.value < |rs| then rs[..cut.value] else rs
  }

  /**
   The exchange time is recorded even if the pull was cut off.  The next pull, from that time on, makes
   up for it exactly when every register that did not arrive is newer than that time, or not news.
   */
  lemma {:induction false} CutPullIsRepairedIff(m: Table, other: Table, theirs: seq<Register>, cut: nat, now: real)
    requires Keyed(other) && Lists(theirs, other) && DistinctPaths(theirs) && cut <= |theirs|
    ensures Join(MergeAll(m, theirs[..cut]), Since(other, now)) == Join(m, other)
      <==> forall r <- theirs[cut..] :: r.ts < now ==> r.path in m && !Newer(r, m[r.path])
  {
    var got := Arrived(other, theirs[..cut]);
    var part := Join(m, got);
    assert forall r <- theirs[..cut] :: r in theirs;
    PartialDelivery(m, theirs[..cut], other);
    FilteredPullIsFull(part, other, now);
    JoinPart(m, other, got);
    forall p | p in other
      ensures p in got || other[p] in theirs[cut..]
      ensures p in got ==> p in part && !Newer(other[p], part[p])
      ensures p !in got ==> (p in part <==> p in m) && (p in m ==> part[p] == m[p])
    {
      ArrivedOrNot(m, other, theirs, cut, p);
    }
    forall r | r in theirs[cut..]
      ensures r.path in other && other[r.path] == r && r.path !in got
    {
      NotBoth(theirs, cut, r, other);
    }
  }

  lemma {:induction false} ArrivedOrNot(m: Table, other: Table, theirs: seq<Register>, cut: nat, p: string)
    requires Lists(theirs, other) && cut <= |theirs| && p in other
    ensures var got := Arrived(other, theirs[..cut]);
      var part := Join(m, got);
      && (p in got || other[p] in theirs[cut..])
      && (p in got ==> p in part && !Newer(other[p], part[p]))
      && (p !in got ==> (p in part <==> p in m) && (p in m ==> part[p] == m[p]))
  {
    var k :| 0 <= k < |theirs| && theirs[k] == other[p];
    assert theirs[k] in if k < cut then theirs[..cut] else theirs[cut..];
    StampsAreOrdered(other[p], other[p], other[p]);
    if p in m {
      StampsAreOrdered(other[p], m[p], other[p]);
    }
  }

  lemma {:induction false} NotBoth(theirs: seq<Register>, cut: nat, r: Register, other: Table)
    requires DistinctPaths(theirs) && cut <= |theirs| && r in theirs[cut..] && Lists(theirs, other)
    ensures r.path in other && other[r.path] == r && r !in theirs[..cut]
  {
    var j :| 0 <= j < |theirs| - cut && theirs[cut..][j] == r;
    assert theirs[cut + j] == r;
  }

  lemma {:induction false} JoinPart(m: Table, other: Table, part: Table)
    requires forall p <- part :: p in other && other[p] == part[p]
    ensures Join(Join(m, part), other) == Join(m, other)
  {
    var one, all := Join(Join(m, part), other), Join(m, other);
    assert one.Keys == all.Keys;
    forall p | p in all
      ensures one[p] == all[p]
    {
      if p in part {
        StampsAreOrdered(other[p], other[p], other[p]);
        if p in m {
          StampsAreOrdered(other[p], m[p], other[p]);
        }
      }
    }
  }

  class CRDTStore {
    const nodeId: string
    /** False for a path whose alias call raises; the source swallows the exception. */
    const aliasable: string -> bool
    var registers: Table
    var aliases: map<string, string>
    var lastSync: map<string, real>

    ghost predicate Valid()
      reads this
    {
      Keyed(registers)
    }

    /** The alias table shows the object of each path's register. */
    ghost predicate AliasesFollow()
      reads this
    {
      forall p <- registers :: aliasable(p) ==> p in aliases && aliases[p] == registers[p].oid
    }

    /** At start-up every existing alias is stamped with this node's clock. */
    constructor (nodeId: string, aliases: map<string, string>, clock: string -> real, aliasable: string -> bool)
      ensures Valid() && AliasesFollow()
      ensures this.nodeId == nodeId && this.aliases == aliases && this.aliasable == aliasable && lastSync == map[]
      ensures registers == map p | p in aliases :: Register(p, aliases[p], clock(p), nodeId)
    {
      this.nodeId, this.aliases, this.aliasable := nodeId, aliases, aliasable;
      registers := map p | p in aliases :: Register(p, aliases[p], clock(p), nodeId);
      lastSync := map[];
    }

    /** Records a write the object store has just made at time `now`. */
    method RecordWrite(path: string, oid: string, now: real)
      requires Valid()
      modifies `registers
      ensures Valid()
      ensures registers == old(registers)[path := Register(path, oid, now, nodeId)]
      ensures old(AliasesFollow()) && path in aliases && aliases[path] == oid ==> AliasesFollow()
    {
      registers := registers[path := Register(path, oid, now, nodeId)];
    }

    method MergeRegister(remote: Register) returns (accepted: bool)
      requires Valid()
      modifies `registers, `aliases
      ensures Valid()
      ensures registers == MergeInto(old(registers), remote)
      ensures accepted <==> remote.path !in Rejected(old(registers), map[remote.path := remote])
      ensures aliases ==
        if accepted && aliasable(remote.path) then old(aliases)[remote.path := remote.oid] else old(aliases)
      ensures old(AliasesFollow()) ==> AliasesFollow()
    {
      if remote.path in registers && !Newer(remote, registers[remote.path]) {
        return false;
      }
      registers := registers[remote.path := remote];
      if aliasable(remote.path) {
        aliases := aliases[remote.path := remote.oid];
      }
      return true;
    }

    method ExportDelta(since: real) returns (delta: seq<Register>)
      requires Valid()
      ensures Lists(delta, Since(registers, since)) && DistinctPaths(delta)
      ensures |delta| == |Since(registers, since)|
    {
      var due := Since(registers, since);
      var left := due.Keys;
      delta := [];
      while left != {}
        invariant left <= due.Keys
        invariant forall r <- delta :: r.path in due.Keys - left && due[r.path] == r
        invariant forall p <- due.Keys - left :: due[p] in delta
        invariant DistinctPaths(delta)
        invariant |delta| == |due.Keys| - |left|
      {
        var p :| p in left;
        assert due[p].path == p;
        delta, left := delta + [due[p]], left - {p};
      }
    }

    /** Merges whatever list of registers arrives, counting those not accepted. */
    method MergeDelta(rs: seq<Register>) returns (conflicts: nat)
      requires Valid()
      modifies `registers, `aliases
      ensures Valid()
      ensures registers == MergeAll(old(registers), rs)
      ensures conflicts == Conflicts(old(registers), rs)
      ensures old(AliasesFollow()) ==> AliasesFollow()
    {
      conflicts := 0;
      for i := 0 to |rs|
        invariant Valid()
        invariant registers == MergeAll(old(registers), rs[..i])
        invariant conflicts == Conflicts(old(registers), rs[..i])
        invariant old(AliasesFollow()) ==> AliasesFollow()
      {
        assert rs[..i + 1][..i] == rs[..i];
        var accepted := MergeRegister(rs[i]);
        if !accepted {
          conflicts := conflicts + 1;
        }
      }
      assert rs[..|rs|] == rs;
    }

    /** Merges the peer's registers written since a time, up to where the request breaks off. */
    method Pull(peer: CRDTStore, since: real, cut: Option<nat>) returns (stats: SyncStats, ghost theirs: seq<Register>)
      requires Valid() && peer.Valid() && peer != this
      modifies `registers, `aliases
      ensures Valid() && Lists(theirs, Since(peer.registers, since)) && DistinctPaths(theirs)
      ensures registers == MergeAll(old(registers), Got(theirs, cut))
      ensures cut.None? ==> registers == Join(old(registers), Since(peer.registers, since))
      ensures stats == SyncStats(|Got(theirs, cut)|, 0, Conflicts(old(registers), Got(theirs, cut)), cut.Some?)
      ensures old(AliasesFollow()) ==> AliasesFollow()
    {
      var sent := peer.ExportDelta(since);
      theirs := sent;
      DeltaIsJoined(registers, theirs, Since(peer.registers, since));
      var conflicts := MergeDelta(Got(sent, cut));
      stats := SyncStats(|Got(sent, cut)|, 0, conflicts, cut.Some?);
    }

    /** Has the peer merge the registers written here since a time. */
    method Push(peer: CRDTStore, since: real) returns (sent: nat)
      requires Valid() && peer.Valid() && peer != this
      modifies peer`registers, peer`aliases
      ensures peer.Valid() && peer.registers == Join(old(peer.registers), Since(registers, since))
      ensures sent == |Since(registers, since)|
      ensures old(peer.AliasesFollow()) ==> peer.AliasesFollow()
    {
      var ours := ExportDelta(since);
      DeltaIsJoined(peer.registers, ours, Since(registers, since));
      var _ := peer.MergeDelta(ours);
      sent := |ours|;
    }

    /**
     Pull the peer's registers written since the last exchange, then push ours.  A pull cut off after k
     registers has merged those; a push may be applied by the peer although its answer is lost; and the
     exchange time is recorded whatever happens.  `theirs` is what the peer sent.
     */
    method SyncWithPeer(url: string, peer: CRDTStore, now: real, cut: Option<nat>, pushed: bool, answered: bool)
      returns (stats: SyncStats, ghost theirs: seq<Register>)
      requires Valid() && peer.Valid() && peer != this
      modifies this, peer`registers, peer`aliases
      ensures Valid() && peer.Valid()
      ensures var since := if url in old(lastSync) then old(lastSync[url]) else 0.0;
        && Lists(theirs, Since(old(peer.registers), since)) && DistinctPaths(theirs)
        && registers == MergeAll(old(registers), Got(theirs, cut))
        && (cut.None? ==> registers == Join(old(registers), Since(old(peer.registers), since)))
        && peer.registers ==
           (if pushed then Join(old(peer.registers), Since(registers, since)) else old(peer.registers))
        && stats == SyncStats(|Got(theirs, cut)|, if pushed && answered then |Since(registers, since)| else 0,
                              Conflicts(old(registers), Got(theirs, cut)), cut.Some?)
      ensures lastSync == old(lastSync)[url := now]
      ensures old(AliasesFollow()) ==> AliasesFollow()
      ensures old(peer.AliasesFollow()) ==> peer.AliasesFollow()
    {
      var since := if url in lastSync then lastSync[url] else 0.0;
      stats, theirs := Pull(peer, since, cut);
      if pushed {
        var sent := Push(peer, since);
        if answered {
          stats := stats.(sent := sent);
        }
      }
      lastSync := lastSync[url := now];
    }
  }
}
