/** Dependency graphs: paths, reachability, cycles and orders that respect the edges. */
module Graphs {

  /** The dependencies of each declared name; a name that is not declared has none. */
  type Graph = map<string, seq<string>>

  function Deps(g: Graph, x: string): seq<string> {
    if x in g then g[x] else []
  }

  ghost predicate IsPath(g: Graph, p: seq<string>) {
    p != [] && forall i | 0 <= i < |p| - 1 :: p[i + 1] in Deps(g, p[i])
  }

  ghost predicate Reaches(g: Graph, a: string, b: string) {
    exists p :: IsPath(g, p) && p[0] == a && p[|p| - 1] == b
  }

  ghost predicate OnCycle(g: Graph, x: string) {
    exists d :: d in Deps(g, x) && Reaches(g, d, x)
  }

  ghost predicate ReachedFrom(g: Graph, names: seq<string>, x: string) {
    exists n :: n in names && Reaches(g, n, x)
  }

  ghost predicate CycleFrom(g: Graph, names: seq<string>) {
    exists x :: ReachedFrom(g, names, x) && OnCycle(g, x)
  }

  /** Each name of a path lists the next among its dependencies. */
  lemma {:induction false} IsPathIff(g: Graph, p: seq<string>)
    ensures IsPath(g, p) <==>
      p != [] && forall i | 0 <= i < |p| - 1 :: p[i] in g && p[i + 1] in g[p[i]]
  {
    if IsPath(g, p) {
      forall i | 0 <= i < |p| - 1
        ensures p[i] in g && p[i + 1] in g[p[i]]
      {
        assert p[i + 1] in Deps(g, p[i]);
      }
    }
  }

  lemma {:induction false} ReachesSelf(g: Graph, a: string)
    ensures Reaches(g, a, a)
  {
    assert IsPath(g, [a]);
  }

  /** A dependency reaches what its dependant then reaches. */
  lemma {:induction false} ReachesThrough(g: Graph, a: string, d: string, b: string)
    requires d in Deps(g, a) && Reaches(g, d, b)
    ensures Reaches(g, a, b)
  {
    var p :| IsPath(g, p) && p[0] == d && p[|p| - 1] == b;
    assert IsPath(g, [a] + p);
  }

  lemma {:induction false} FirstStep(g: Graph, p: seq<string>)
    requires IsPath(g, p) && |p| > 1
    ensures p[0 + 1] in Deps(g, p[0])
  {
  }

  /** A name without dependencies reaches only itself. */
  lemma {:induction false} ReachesOnlySelf(g: Graph, a: string, b: string)
    requires Deps(g, a) == [] && Reaches(g, a, b)
    ensures a == b
  {
    var p :| IsPath(g, p) && p[0] == a && p[|p| - 1] == b;
    if |p| > 1 {
      FirstStep(g, p);
      assert false;
    }
  }

  lemma {:induction false} ReachesTransitive(g: Graph, a: string, b: string, c: string)
    requires Reaches(g, a, b) && Reaches(g, b, c)
    ensures Reaches(g, a, c)
  {
    var p :| IsPath(g, p) && p[0] == a && p[|p| - 1] == b;
    var q :| IsPath(g, q) && q[0] == b && q[|q| - 1] == c;
    var r := p + q[1..];
    forall i | 0 <= i < |r| - 1
      ensures r[i + 1] in Deps(g, r[i])
    {
      if i >= |p| - 1 {
        assert r[i] == q[i - (|p| - 1)];
      }
    }
    assert IsPath(g, r);
  }

  /** A path of more than one name that returns to its start is a cycle. */
  lemma {:induction false} ClosedPathIsCycle(g: Graph, p: seq<string>)
    requires IsPath(g, p) && |p| > 1 && p[0] == p[|p| - 1]
    ensures OnCycle(g, p[0])
  {
    assert IsPath(g, p[1..]);
    assert p[1] in Deps(g, p[0]) && Reaches(g, p[1], p[0]);
  }

  ghost predicate Distinct(s: seq<string>) {
    forall i, j | 0 <= i < j < |s| :: s[i] != s[j]
  }

  /** Every dependency stands before its dependant. */
  ghost predicate InOrder(g: Graph, order: seq<string>) {
    forall i, d | 0 <= i < |order| && d in Deps(g, order[i]) :: d in order[..i]
  }

  /** A list of names with the last one outermost. */
  datatype Log = Empty | Entry(before: Log, name: string)

  ghost function Names(log: Log): seq<string> {
    match log
    case Empty => []
    case Entry(before, name) => Names(before) + [name]
  }

  ghost function Elements(log: Log): set<string> {
    match log
    case Empty => {}
    case Entry(before, name) => Elements(before) + {name}
  }

  /** Each entry is new and was made when all its dependencies were there. */
  ghost predicate Layered(g: Graph, log: Log) {
    match log
    case Empty => true
    case Entry(before, name) =>
      Layered(g, before) && name !in Elements(before) && forall d <- Deps(g, name) :: d in Elements(before)
  }

  lemma {:induction false} LayeredIsInOrder(g: Graph, log: Log)
    requires Layered(g, log)
    ensures forall x :: x in Names(log) <==> x in Elements(log)
    ensures Distinct(Names(log)) && InOrder(g, Names(log))
  {
    if log.Entry? {
      var front := Names(log.before);
      LayeredIsInOrder(g, log.before);
      var order := front + [log.name];
      forall i, d | 0 <= i < |order| && d in Deps(g, order[i])
        ensures d in order[..i]
      {
        assert order[..i] == front[..i];
      }
    }
  }

  /** What an ordered name reaches does not stand after it. */
  lemma {:induction false} ReachesBackwards(g: Graph, order: seq<string>, i: nat, p: seq<string>)
    requires InOrder(g, order) && i < |order| && IsPath(g, p) && p[0] == order[i]
    ensures p[|p| - 1] in order[..i + 1]
    decreases |p|
  {
    if |p| > 1 {
      assert p[1] in order[..i];
      var k :| 0 <= k < i && order[k] == p[1];
      assert IsPath(g, p[1..]);
      ReachesBackwards(g, order, k, p[1..]);
      assert order[..k + 1] <= order[..i + 1];
    }
  }

  lemma {:induction false} OrderedNamesAreAcyclic(g: Graph, order: seq<string>, x: string, y: string)
    requires InOrder(g, order) && Distinct(order) && x in order && Reaches(g, x, y)
    ensures y in order && !OnCycle(g, y)
  {
    var i :| 0 <= i < |order| && order[i] == x;
    var p :| IsPath(g, p) && p[0] == x && p[|p| - 1] == y;
    ReachesBackwards(g, order, i, p);
    if OnCycle(g, y) {
      var k :| 0 <= k < |order| && order[k] == y;
      var d :| d in Deps(g, y) && Reaches(g, d, y);
      var j :| 0 <= j < k && order[j] == d;
      var q :| IsPath(g, q) && q[0] == d && q[|q| - 1] == y;
      ReachesBackwards(g, order, j, q);
    }
  }
}
