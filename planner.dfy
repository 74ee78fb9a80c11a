/** The migration planner: a depth-first topological sort of the import
    graph that tolerates cycles, and the plan that pairs its order with the
    destination-path map. */
module Planner {
  import opened Wrappers
  import opened Seqs
  import opened OrderedMaps
  import opened FileScanner
  import opened PathMapper

  /** `graph[node] || []`: a node without a key has no dependencies. */
  function Deps(graph: OMap<seq<string>>, node: string): seq<string>
  {
    graph.GetOr(node, [])
  }

  /** The keys of the graph and every node some key lists. */
  ghost function Nodes(graph: OMap<seq<string>>): set<string>
  {
    graph.entries.Keys + (set k, d | k in graph.entries && d in graph.entries[k] :: d)
  }

  /** Each node of `p` lists the next one as a dependency. */
  ghost predicate IsPath(graph: OMap<seq<string>>, p: seq<string>)
  {
    forall j :: 0 <= j < |p| - 1 ==> p[j + 1] in Deps(graph, p[j])
  }

  /** No path leads from a node back to itself: the last node of a path
      never lists the first. */
  ghost predicate Acyclic(graph: OMap<seq<string>>)
  {
    forall p :: IsPath(graph, p) && |p| >= 1 ==> p[0] !in Deps(graph, p[|p| - 1])
  }

  /** Every dependency of an emitted node was emitted before it. */
  ghost predicate DepsFirst(graph: OMap<seq<string>>, sorted: seq<string>)
  {
    forall i, d :: 0 <= i < |sorted| && d in Deps(graph, sorted[i]) ==> d in sorted[..i]
  }

  /** Every dependency of a node of `s` is in `s` or in `t`. */
  ghost predicate ClosedUpTo(graph: OMap<seq<string>>, s: set<string>, t: set<string>)
  {
    forall v, d :: v in s && d in Deps(graph, v) ==> d in s || d in t
  }

  lemma DepsAreNodes(graph: OMap<seq<string>>)
    ensures DepsWithin(graph, Nodes(graph))
  {
  }

  lemma DepsFirstSnoc(graph: OMap<seq<string>>, sorted: seq<string>, node: string)
    requires DepsFirst(graph, sorted)
    requires forall d :: d in Deps(graph, node) ==> d in sorted
    ensures DepsFirst(graph, sorted + [node])
  {
    var s := sorted + [node];
    forall i, d | 0 <= i < |s| && d in Deps(graph, s[i])
      ensures d in s[..i]
    {
      if i < |sorted| {
        assert s[i] == sorted[i] && s[..i] == sorted[..i];
      } else {
        assert s[..i] == sorted;
      }
    }
  }

  /** A dependency edge from the end of a path back to one of its nodes
      closes a cycle. */
  lemma BackEdgeIsCycle(graph: OMap<seq<string>>, path: seq<string>, j: nat)
    requires IsPath(graph, path) && j < |path|
    requires path[j] in Deps(graph, path[|path| - 1])
    ensures !Acyclic(graph)
  {
    var p := path[j..];
    forall k | 0 <= k < |p| - 1
      ensures p[k + 1] in Deps(graph, p[k])
    {
      assert p[k] == path[j + k] && p[k + 1] == path[j + k + 1];
    }
    assert p[0] in Deps(graph, p[|p| - 1]);
  }

  /** The dependencies of a node of `u` are in `u`. */
  ghost predicate DepsWithin(graph: OMap<seq<string>>, u: set<string>)
  {
    forall v, d :: v in u && d in Deps(graph, v) ==> d in u
  }

  /** Each of `ds` is finished or on the descent. */
  ghost predicate Settled(ds: seq<string>, visited: set<string>, temp: set<string>)
  {
    forall d :: d in ds ==> d in visited || d in temp
  }

  /** The nodes of `path` are exactly those of `temp`. */
  ghost predicate OnPath(path: seq<string>, temp: set<string>)
  {
    forall x :: x in path <==> x in temp
  }

  /** The output lists exactly the finished nodes, each once. */
  ghost predicate Emitted(sorted: seq<string>, visited: set<string>)
  {
    (forall x :: x in sorted <==> x in visited) && Distinct(sorted)
  }

  /** What holds of the sort's state between steps. */
  ghost predicate Inv(graph: OMap<seq<string>>, universe: set<string>, visited: set<string>,
                      temp: set<string>, sorted: seq<string>, path: seq<string>)
  {
    && graph.Valid()
    && DepsWithin(graph, universe)
    && visited <= universe
    && temp <= universe
    && visited !! temp
    && Emitted(sorted, visited)
    && OnPath(path, temp)
    && IsPath(graph, path)
    && ClosedUpTo(graph, visited, temp)
    && (Acyclic(graph) ==> DepsFirst(graph, sorted))
  }

  /** Entering a node that is neither finished nor on the descent. */
  lemma PushInv(graph: OMap<seq<string>>, universe: set<string>, visited: set<string>,
                temp: set<string>, sorted: seq<string>, path: seq<string>, node: string)
    requires Inv(graph, universe, visited, temp, sorted, path)
    requires node in universe && node !in temp && node !in visited
    requires path != [] ==> node in Deps(graph, path[|path| - 1])
    ensures Inv(graph, universe, visited, temp + {node}, sorted, path + [node])
  {
    var p := path + [node];
    forall j | 0 <= j < |p| - 1
      ensures p[j + 1] in Deps(graph, p[j])
    {
      if j < |path| - 1 {
        assert p[j] == path[j] && p[j + 1] == path[j + 1];
      }
    }
  }

  /** Leaving a node whose dependencies are all finished or on the descent. */
  lemma PopInv(graph: OMap<seq<string>>, universe: set<string>, visited: set<string>,
               temp0: set<string>, sorted: seq<string>, path0: seq<string>, node: string)
    requires Inv(graph, universe, visited, temp0 + {node}, sorted, path0 + [node])
    requires OnPath(path0, temp0) && node !in temp0 && node !in visited
    requires Settled(Deps(graph, node), visited, temp0 + {node})
    ensures Inv(graph, universe, visited + {node}, temp0, sorted + [node], path0)
  {
    var p := path0 + [node];
    forall j | 0 <= j < |path0| - 1
      ensures path0[j + 1] in Deps(graph, path0[j])
    {
      assert p[j] == path0[j] && p[j + 1] == path0[j + 1];
    }
    if Acyclic(graph) {
      forall d | d in Deps(graph, node)
        ensures d in sorted
      {
        if d !in visited {
          var j :| 0 <= j < |p| && p[j] == d;
          BackEdgeIsCycle(graph, p, j);
        }
      }
      DepsFirstSnoc(graph, sorted, node);
    }
    assert Distinct(sorted + [node]) by {
      assert forall i :: 0 <= i < |sorted| ==> (sorted + [node])[i] == sorted[i];
    }
  }

  /** Once the descent is empty the finished nodes are closed under
      dependencies; holding every key, they are exactly the nodes. */
  lemma AllNodesEmitted(graph: OMap<seq<string>>, visited: set<string>, sorted: seq<string>)
    requires graph.Valid() && visited <= Nodes(graph)
    requires forall x :: x in sorted <==> x in visited
    requires ClosedUpTo(graph, visited, {})
    requires forall k :: k in graph.keys ==> k in visited
    ensures forall x :: x in sorted <==> x in Nodes(graph)
    ensures forall v, d :: v in sorted && d in Deps(graph, v) ==> d in sorted
  {
    forall x | x in Nodes(graph)
      ensures x in visited
    {
      if x !in graph.entries {
        var k, d :| k in graph.entries && d in graph.entries[k] && x == d;
        assert k in graph.keys;
        assert d in Deps(graph, k);
      }
    }
  }

  /** The state the `visit` closure of `_topologicalSort` shares: the nodes
      finished, the nodes on the current descent and the output so far. The
      ghost `path` is the current descent in order. */
  class Sorter {
    const graph: OMap<seq<string>>
    ghost const universe: set<string>
    var visited: set<string>
    var tempVisited: set<string>
    var sorted: seq<string>
    ghost var path: seq<string>

    ghost predicate Valid()
      reads this
    {
      Inv(graph, universe, visited, tempVisited, sorted, path)
    }

    constructor (graph: OMap<seq<string>>)
      requires graph.Valid()
      ensures Valid() && universe == Nodes(graph)
      ensures this.graph == graph && visited == {} && tempVisited == {} && sorted == [] && path == []
    {
      this.graph := graph;
      universe := Nodes(graph);
      DepsAreNodes(graph);
      visited := {};
      tempVisited := {};
      sorted := [];
      path := [];
    }

    /** `visit(node)`: a node on the current descent or already finished is
        skipped; any other node is expanded. */
    method Visit(node: string)
      requires Valid() && node in universe
      requires path != [] ==> node in Deps(graph, path[|path| - 1])
      modifies this
      ensures Valid()
      ensures tempVisited == old(tempVisited) && path == old(path)
      ensures old(visited) <= visited
      ensures old(sorted) <= sorted
      ensures node !in old(tempVisited) ==> node in visited
      ensures node in old(tempVisited) || node in old(visited) ==> sorted == old(sorted) && visited == old(visited)
      decreases universe - tempVisited - visited, 2
    {
      if node in tempVisited {
        return;
      }
      if node in visited {
        return;
      }
      Expand(node);
    }

    /** The rest of `visit(node)` for a node met for the first time: it goes
        on the descent, its dependencies are visited in order, and then it
        leaves the descent, is finished and is emitted. */
    method Expand(node: string)
      requires Valid() && node in universe && node !in tempVisited && node !in visited
      requires path != [] ==> node in Deps(graph, path[|path| - 1])
      modifies this
      ensures Valid()
      ensures tempVisited == old(tempVisited) && path == old(path)
      ensures old(visited) <= visited && node in visited
      ensures old(sorted) <= sorted && sorted[|sorted| - 1] == node
      decreases universe - tempVisited - visited, 1
    {
      PushInv(graph, universe, visited, tempVisited, sorted, path, node);
      ghost var temp0, path0 := tempVisited, path;
      tempVisited := tempVisited + {node};
      path := path + [node];
      var dependencies := Deps(graph, node);
      assert universe - tempVisited - visited < old(universe - tempVisited - visited) by {
        assert node in old(universe - tempVisited - visited);
      }
      VisitEach(dependencies, old(universe - tempVisited - visited));
      PopInv(graph, universe, visited, temp0, sorted, path0, node);
      assert tempVisited - {node} == temp0;
      tempVisited := tempVisited - {node};
      path := path0;
      visited := visited + {node};
      sorted := sorted + [node];
    }
  
    /** `for (const dep of dependencies) visit(dep)` while the node on top of
        the descent is being expanded; `bound` is the measure at that node's
        entry, which each nested visit stays strictly below. */
    method VisitEach(dependencies: seq<string>, ghost bound: set<string>)
      requires Valid() && path != []
      requires forall d :: d in dependencies ==> d in Deps(graph, path[|path| - 1]) && d in universe
      requires universe - tempVisited - visited < bound
      modifies this
      ensures Valid()
      ensures tempVisited == old(tempVisited) && path == old(path)
      ensures old(visited) <= visited && old(sorted) <= sorted
      ensures Settled(dependencies, visited, tempVisited)
      decreases bound, 0
    {
      var i := 0;
      while i < |dependencies|
        invariant 0 <= i <= |dependencies|
        invariant Valid()
        invariant tempVisited == old(tempVisited) && path == old(path)
        invariant old(visited) <= visited && old(sorted) <= sorted
        invariant universe - tempVisited - visited < bound
        invariant Settled(dependencies[..i], visited, tempVisited)
      {
        Visit(dependencies[i]);
        TakeSnoc(dependencies, i);
        i := i + 1;
      }
      assert dependencies[..i] == dependencies;
    }
  }


  /** `x` is at the end of a dependency path that starts at a key. */
  ghost predicate Reachable(graph: OMap<seq<string>>, x: string)
  {
    exists p :: IsPath(graph, p) && |p| >= 1 && p[0] in graph.entries && p[|p| - 1] == x
  }

  /** The nodes the sort emits are exactly the keys and the nodes reachable
      from them: a node without a key has no dependencies, so every path
      from a key ends at a key or at a node a key lists. */
  lemma NodesAreReachable(graph: OMap<seq<string>>, x: string)
    ensures x in Nodes(graph) <==> Reachable(graph, x)
  {
    if x in graph.entries {
      assert IsPath(graph, [x]);
    } else if x in Nodes(graph) {
      var k, d :| k in graph.entries && d in graph.entries[k] && x == d;
      assert IsPath(graph, [k, x]);
    }
    if Reachable(graph, x) {
      var p :| IsPath(graph, p) && |p| >= 1 && p[0] in graph.entries && p[|p| - 1] == x;
      if |p| > 1 {
        var q := p[|p| - 2];
        assert x in Deps(graph, q);
        assert q in graph.entries;
      }
    }
  }

  datatype MigrationPlan = MigrationPlan(files: seq<string>, pathMap: OMap<string>, strategyDescription: string)

  /** The planner over the import graph (`importsGraph`) of the project. */
  class Planner {
    const dependencyGraph: OMap<seq<string>>

    constructor (dependencyGraph: OMap<seq<string>>)
      ensures this.dependencyGraph == dependencyGraph
    {
      this.dependencyGraph := dependencyGraph;
    }

    /** `plan(files)`: the path map is empty without a file list and is
        `generateMap(files)` otherwise; the order is the topological sort of
        the import graph. */
    method Plan(files: Option<seq<FileRecord>>) returns (plan: MigrationPlan)
      requires dependencyGraph.Valid()
      ensures plan.pathMap.Valid()
      ensures files.None? ==> plan.pathMap == Empty()
      ensures files.Some? ==> plan.pathMap.keys == Dedup(Rels(files.value))
      ensures files.Some? ==> forall k :: k in plan.pathMap.entries <==> k in Rels(files.value)
      ensures forall k :: k in plan.pathMap.entries ==> plan.pathMap.entries[k] == DetermineNewPath(k)
      ensures Distinct(plan.files)
      ensures forall x :: x in plan.files <==> x in Nodes(dependencyGraph)
      ensures Acyclic(dependencyGraph) ==> DepsFirst(dependencyGraph, plan.files)
      ensures plan.strategyDescription == "Topological Sort (Leaf Nodes First) + Smart Pathing"
    {
      var pathMap := Empty();
      if files.Some? {
        pathMap := GenerateMap(files.value);
      }
      var sortedFiles := TopologicalSort(dependencyGraph);
      plan := MigrationPlan(sortedFiles, pathMap, "Topological Sort (Leaf Nodes First) + Smart Pathing");
    }

    /** `_topologicalSort(graph)`: every node is emitted once, the output holds
        exactly the keys and the nodes they list, and on an acyclic graph each
        node comes after all of its dependencies. */
    method TopologicalSort(graph: OMap<seq<string>>) returns (sorted: seq<string>)
      requires graph.Valid()
      ensures Distinct(sorted)
      ensures forall x :: x in sorted <==> x in Nodes(graph)
      ensures forall k :: k in graph.keys ==> k in sorted
      ensures forall v, d :: v in sorted && d in Deps(graph, v) ==> d in sorted
      ensures Acyclic(graph) ==> DepsFirst(graph, sorted)
    {
      var s := new Sorter(graph);
      var i := 0;
      while i < |graph.keys|
        invariant 0 <= i <= |graph.keys|
        invariant s.Valid() && s.graph == graph
        invariant s.tempVisited == {} && s.path == []
        invariant forall j :: 0 <= j < i ==> graph.keys[j] in s.visited
      {
        s.Visit(graph.keys[i]);
        i := i + 1;
      }
      sorted := s.sorted;
      assert Inv(graph, s.universe, s.visited, {}, sorted, []);
      AllNodesEmitted(graph, s.visited, sorted);
    }
  }
}
