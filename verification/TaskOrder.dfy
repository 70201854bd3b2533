/** The depth-first task ordering of the build system (runtime/build.py). */
module TaskOrder {
  import opened Wrappers
  import opened Graphs

  /** Each name on the stack depends on the next, and the last one on `name`. */
  ghost predicate Chain(g: Graph, stack: seq<string>, name: string) {
    stack == [] ||
    var front, last := stack[..|stack| - 1], stack[|stack| - 1];
    Chain(g, front, last) && name in Deps(g, last)
  }

  lemma {:induction false} ChainIsPath(g: Graph, stack: seq<string>, name: string)
    requires Chain(g, stack, name)
    ensures IsPath(g, stack + [name])
  {
    if stack != [] {
      var front, last := stack[..|stack| - 1], stack[|stack| - 1];
      ChainIsPath(g, front, last);
      assert stack == front + [last];
      assert forall i | 0 <= i < |stack| - 1 :: stack[i + 1] in Deps(g, stack[i]);
    }
  }

  /** Meeting a name of the path again closes a cycle. */
  lemma {:induction false} ReturnIsCycle(g: Graph, stack: seq<string>, name: string)
    requires name in stack && Chain(g, stack, name)
    ensures OnCycle(g, name)
  {
    ChainIsPath(g, stack, name);
    var p := stack + [name];
    var i :| 0 <= i < |stack| && stack[i] == name;
    assert IsPath(g, p[i..]);
    ClosedPathIsCycle(g, p[i..]);
  }

  /** Finished names are emitted once each, after their dependencies; the path holds unfinished names. */
  ghost predicate Consistent(g: Graph, universe: set<string>, visited: set<string>, path: set<string>,
                             result: seq<string>, log: Log)
  {
    && (forall x <- universe, d <- Deps(g, x) :: d in universe)
    && visited !! path && visited <= universe && path <= universe
    && visited == Elements(log) && result == Names(log) && Layered(g, log)
  }

  /** The path holds the names of the stack, which lead to `name`. */
  ghost predicate LeadsTo(g: Graph, path: set<string>, stack: seq<string>, name: string) {
    Chain(g, stack, name) && forall x :: x in path <==> x in stack
  }

  /** A name that is neither finished nor on the path goes on the path. */
  lemma {:induction false} Enter(g: Graph, universe: set<string>, visited: set<string>, path: set<string>,
                                 result: seq<string>, log: Log, stack: seq<string>, name: string)
    requires Consistent(g, universe, visited, path, result, log) && LeadsTo(g, path, stack, name)
    requires name in universe && name !in visited
    ensures Consistent(g, universe, visited, path + {name}, result, log)
    ensures forall d <- Deps(g, name) :: d in universe && LeadsTo(g, path + {name}, stack + [name], d)
  {
    var longer := stack + [name];
    assert longer[..|longer| - 1] == stack && longer[|longer| - 1] == name;
  }

  /** With all it depends on finished, a name leaves the path and is emitted. */
  lemma {:induction false} Finish(g: Graph, universe: set<string>, visited: set<string>, path: set<string>,
                                  result: seq<string>, log: Log, name: string)
    requires Consistent(g, universe, visited, path + {name}, result, log) && name !in path
    requires forall d <- Deps(g, name) :: d in visited
    ensures Consistent(g, universe, visited + {name}, path, result + [name], Entry(log, name))
  {
  }

  /** The state the recursive visit shares: names finished, names on the current path, names emitted. */
  class Sorter {
    const graph: Graph
    /** The names that can be met; it is closed under dependencies. */
    ghost const universe: set<string>
    var visited: set<string>
    var path: set<string>
    var result: seq<string>
    ghost var log: Log

    constructor (graph: Graph, ghost universe: set<string>)
      ensures visited == {} && path == {} && result == [] && log == Empty
      ensures this.graph == graph && this.universe == universe
    {
      this.graph, this.universe := graph, universe;
      visited, path, result, log := {}, {}, [], Empty;
    }

    /** Finishes `name` and everything below it, or returns a name that closes a cycle. */
    method Visit(name: string, ghost stack: seq<string>) returns (cycle: Option<string>)
      requires Consistent(graph, universe, visited, path, result, log)
      requires LeadsTo(graph, path, stack, name) && name in universe
      modifies this
      ensures cycle.None? ==> Consistent(graph, universe, visited, path, result, log) && path == old(path)
      ensures cycle.None? ==> name in visited && old(visited) <= visited
      ensures cycle.Some? ==> cycle.value in universe && OnCycle(graph, cycle.value)
      decreases universe - path, 0
    {
      cycle := None;
      if name in path {
        ReturnIsCycle(graph, stack, name);
        cycle := Some(name);
      } else if name !in visited {
        Enter(graph, universe, visited, path, result, log, stack, name);
        path := path + {name};
        cycle := VisitAll(Deps(graph, name), stack + [name]);
        if cycle.None? {
          Finish(graph, universe, visited, old(path), result, log, name);
          path := path - {name};
          assert path == old(path);
          visited := visited + {name};
          result, log := result + [name], Entry(log, name);
        }
      }
    }

    /** Visits names in turn, each of which the names of the stack lead to, up to the first cycle met. */
    method VisitAll(names: seq<string>, ghost stack: seq<string>) returns (cycle: Option<string>)
      requires Consistent(graph, universe, visited, path, result, log)
      requires forall n <- names :: n in universe && LeadsTo(graph, path, stack, n)
      modifies this
      ensures cycle.None? ==> Consistent(graph, universe, visited, path, result, log) && path == old(path)
      ensures cycle.None? ==> old(visited) <= visited && forall n <- names :: n in visited
      ensures cycle.Some? ==> cycle.value in universe && OnCycle(graph, cycle.value)
      decreases universe - path, 1
    {
      for i := 0 to |names|
        invariant Consistent(graph, universe, visited, path, result, log) && path == old(path)
        invariant old(visited) <= visited && forall k | 0 <= k < i :: names[k] in visited
      {
        cycle := Visit(names[i], stack);
        if cycle.Some? {
          return;
        }
      }
      cycle := None;
    }
  }

  datatype Order = Sorted(names: seq<string>) | Circular(name: string)

  /** order lists, once each and dependencies first, exactly the names the requested ones reach. */
  ghost predicate IsOrderFor(g: Graph, requested: seq<string>, order: seq<string>) {
    && Distinct(order) && InOrder(g, order)
    && forall x :: x in order <==> ReachedFrom(g, requested, x)
  }

  /** Each name is there once, and whatever it lists stands before it. */
  ghost predicate ListedFirst(g: Graph, order: seq<string>) {
    && (forall i, j | 0 <= i < j < |order| :: order[i] != order[j])
    && forall i, d | 0 <= i < |order| && order[i] in g && d in g[order[i]] :: exists j :: 0 <= j < i && order[j] == d
  }

  method Toposort(g: Graph, requested: seq<string>) returns (order: Order)
    ensures order.Sorted? <==> !CycleFrom(g, requested)
    ensures order.Sorted? ==> IsOrderFor(g, requested, order.names) && ListedFirst(g, order.names)
    ensures order.Circular? ==> ReachedFrom(g, requested, order.name) && OnCycle(g, order.name)
  {
    ReachableSetIsClosed(g, requested);
    var sorter := new Sorter(g, ReachableSet(g, requested));
    var cycle := sorter.VisitAll(requested, []);
    if cycle.Some? {
      return Circular(cycle.value);
    }
    LogIsOrder(g, requested, sorter.log);
    OrderListsFirst(g, sorter.result);
    return Sorted(sorter.result);
  }

  lemma {:induction false} OrderListsFirst(g: Graph, order: seq<string>)
    requires Distinct(order) && InOrder(g, order)
    ensures ListedFirst(g, order)
  {
    forall i, d | 0 <= i < |order| && order[i] in g && d in g[order[i]]
      ensures exists j :: 0 <= j < i && order[j] == d
    {
      assert d in Deps(g, order[i]);
      var j :| 0 <= j < i && order[..i][j] == d;
    }
  }

  /** A complete log of reachable names is an order of them, and shows that there is no cycle. */
  lemma {:induction false} LogIsOrder(g: Graph, requested: seq<string>, log: Log)
    requires Layered(g, log) && Elements(log) <= ReachableSet(g, requested)
    requires forall n <- requested :: n in Elements(log)
    ensures IsOrderFor(g, requested, Names(log)) && !CycleFrom(g, requested)
  {
    LayeredIsInOrder(g, log);
    forall n, x | n in requested && Reaches(g, n, x)
      ensures x in Names(log) && !OnCycle(g, x)
    {
      OrderedNamesAreAcyclic(g, Names(log), n, x);
    }
  }

  ghost function ReachableSet(g: Graph, requested: seq<string>): set<string> {
    set x | x in Named(g, requested) && ReachedFrom(g, requested, x)
  }

  function Named(g: Graph, requested: seq<string>): set<string> {
    (set x | x in requested) + (set x, d | x in g && d in g[x] :: d)
  }

  lemma {:induction false} DependencyIsReached(g: Graph, requested: seq<string>, x: string, d: string)
    requires ReachedFrom(g, requested, x) && d in Deps(g, x)
    ensures ReachedFrom(g, requested, d)
  {
    var n :| n in requested && Reaches(g, n, x);
    ReachesSelf(g, d);
    ReachesThrough(g, x, d, d);
    ReachesTransitive(g, n, x, d);
  }

  lemma {:induction false} ReachableSetIsClosed(g: Graph, requested: seq<string>)
    ensures forall x <- requested :: x in ReachableSet(g, requested)
    ensures forall x <- ReachableSet(g, requested), d <- Deps(g, x) :: d in ReachableSet(g, requested)
  {
    forall x | x in requested
      ensures x in ReachableSet(g, requested)
    {
      ReachesSelf(g, x);
    }
    forall x, d | x in ReachableSet(g, requested) && d in Deps(g, x)
      ensures d in ReachableSet(g, requested)
    {
      DependencyIsReached(g, requested, x, d);
    }
  }

  /** A single requested name comes last. */
  lemma {:induction false} TargetComesLast(g: Graph, target: string, order: seq<string>)
    requires IsOrderFor(g, [target], order)
    ensures order != [] && order[|order| - 1] == target
  {
    ReachesSelf(g, target);
    assert target in [target];
    assert target in order;
    var i :| 0 <= i < |order| && order[i] == target;
    var last := order[|order| - 1];
    assert last in order;
    var n :| n in [target] && Reaches(g, n, last);
    var p :| IsPath(g, p) && p[0] == target && p[|p| - 1] == last;
    ReachesBackwards(g, order, i, p);
  }
}
