/** The recursive search for cycles that leave a switch. */
module CycleSearch {
  import opened Collections
  import opened Ports
  import opened DfsForest

  // ----- cycles that use a link between two switches

  ghost predicate CrossesDevices(c: seq<Port>) {
    exists k: nat {:trigger Next(k, |c|)} :: k < |c| && c[k].sw != c[Next(k, |c|)].sw
  }

  method HasExternal(cycle: seq<Port>) returns (external: bool)
    ensures external <==> CrossesDevices(cycle)
  {
    external := false;
    for k := 0 to |cycle|
      invariant !external
      invariant forall j: nat {:trigger Next(j, |cycle|)} :: j < k ==> cycle[j].sw == cycle[Next(j, |cycle|)].sw
    {
      var n1, n2 := cycle[k], cycle[Next(k, |cycle|)];
      if n1.sw != n2.sw {
        return true;
      }
    }
  }

  // ----- what has been reported

  /** c is the cycle of a back edge met, and it crosses between switches. */
  ghost predicate Reported(tree: Paths, met: set<(Port, Port)>, c: seq<Port>) {
    && |c| > 0 && (c[|c| - 1], c[0]) in met
    && c == Fundamental(tree, c[|c| - 1], c[0]) && CrossesDevices(c)
  }

  /** If the cycle of e crosses between switches, it has been reported. */
  ghost predicate Mentions(tree: Paths, e: (Port, Port), cycles: seq<seq<Port>>) {
    CrossesDevices(Fundamental(tree, e.0, e.1)) ==> Fundamental(tree, e.0, e.1) in cycles
  }

  /** Named so that the quantifiers below have a term to match on. */
  ghost predicate Differ<T>(s: seq<T>, i: nat, j: nat)
    requires i < |s| && j < |s|
  {
    s[i] != s[j]
  }

  /** cycles lists, once each, exactly the cycles closed by the back edges met that cross between switches. */
  ghost predicate Reports(tree: Paths, met: set<(Port, Port)>, cycles: seq<seq<Port>>) {
    && (forall i: nat, j: nat {:trigger Differ(cycles, i, j)} :: i < j < |cycles| ==> Differ(cycles, i, j))
    && (forall c {:trigger Reported(tree, met, c)} :: c in cycles ==> Reported(tree, met, c))
    && (forall e {:trigger Mentions(tree, e, cycles)} :: e in met ==> Mentions(tree, e, cycles))
  }

  ghost predicate IdentityOf(cycles: seq<seq<Port>>, m: multiset<Port>) {
    exists c :: c in cycles && multiset(c) == m
  }

  /**
   The identities of the reported cycles. The program's identity is the sorted tuple of a cycle's ports,
   which determines, and is determined by, the multiset of the ports.
   */
  ghost predicate Identifies(ids: set<multiset<Port>>, cycles: seq<seq<Port>>) {
    forall m {:trigger IdentityOf(cycles, m)} :: m in ids <==> IdentityOf(cycles, m)
  }

  /** The program's variables agree with the ghost tree and the back edges met. */
  ghost predicate Agrees(tree: Paths, met: set<(Port, Port)>, cycles: seq<seq<Port>>, ids: set<multiset<Port>>) {
    Reports(tree, met, cycles) && Identifies(ids, cycles)
  }

  lemma AgreesStable(g: PortMap, tree: Paths, met: set<(Port, Port)>, cycles: seq<seq<Port>>, ids: set<multiset<Port>>,
                     tree': Paths)
    requires Agrees(tree, met, cycles, ids) && Extends(tree, tree') && AllBackEdges(g, tree, met)
    ensures Agrees(tree', met, cycles, ids)
  {
    forall c | c in cycles ensures Reported(tree', met, c) {
      assert Reported(tree, met, c);
    }
    forall e | e in met ensures Mentions(tree', e, cycles) {
      assert Mentions(tree, e, cycles);
    }
  }

  /** Position of the first occurrence. */
  method IndexOf(path: seq<Port>, p: Port) returns (i: nat)
    requires p in path
    ensures i < |path| && path[i] == p && p !in path[..i]
  {
    i := 0;
    while path[i] != p
      invariant i < |path| && p !in path[..i]
      decreases |path| - i
    {
      i := i + 1;
    }
  }

  // ----- the invariant

  /** Between steps: the current path is a tree path, and every port already left is finished. */
  ghost predicate Searching(g: PortMap, tree: Paths, met: set<(Port, Port)>, path: seq<Port>) {
    && Undirected(g) && IsTree(g, tree) && AllBackEdges(g, tree, met)
    && (path != [] ==> path[|path| - 1] in tree && tree[path[|path| - 1]] == path)
    && forall v {:trigger Finished(g, tree, met, v)} :: v in tree && v !in path ==> Finished(g, tree, met, v)
  }

  /** Entering an unvisited port keeps the invariant. */
  lemma Enter(g: PortMap, tree: Paths, met: set<(Port, Port)>, path: seq<Port>, node: Port)
    requires Searching(g, tree, met, path) && node in g && node !in tree
    requires path != [] ==> path[|path| - 1] in g && node in g[path[|path| - 1]]
    ensures Searching(g, tree[node := path + [node]], met, path + [node])
    ensures Extends(tree, tree[node := path + [node]])
  {
    var tree', path' := tree[node := path + [node]], path + [node];
    assert path'[..|path'| - 1] == path;
    forall v | v in tree' ensures HasTreePath(g, tree', v) {
      assert v != node ==> HasTreePath(g, tree, v);
    }
    BackEdgesStable(g, tree, met, tree');
    forall v | v in tree' && v !in path' ensures Finished(g, tree', met, v) {
      FinishedStable(g, tree, met, tree', met, v);
    }
  }

  /** A visited neighbour that the search has left is a descendant: there are no cross edges. */
  lemma NoCrossEdge(g: PortMap, tree: Paths, met: set<(Port, Port)>, path: seq<Port>, x: Port)
    requires Searching(g, tree, met, path) && path != []
    requires var w := path[|path| - 1]; w in g && x in g[w] && x in tree && x !in path
    ensures Handled(g, tree, met, path[|path| - 1], x)
  {
    assert Finished(g, tree, met, x);
    assert Handled(g, tree, met, x, path[|path| - 1]);
  }

  /** The parent is an ancestor, and skipping it loses nothing. */
  lemma ParentHandled(g: PortMap, tree: Paths, met: set<(Port, Port)>, path: seq<Port>, w: Port)
    requires Searching(g, tree, met, path) && |path| > 1 && w == path[|path| - 1]
    ensures Handled(g, tree, met, w, path[|path| - 2])
  {
    assert HasTreePath(g, tree, w);
  }

  /** Old paths are kept, and every new back edge starts at a port that was not visited before. */
  ghost predicate Grown(tree0: Paths, met0: set<(Port, Port)>, tree: Paths, met: set<(Port, Port)>) {
    && Extends(tree0, tree) && met0 <= met
    && forall e :: e in met ==> e in met0 || e.0 !in tree0
  }

  /**
   Inside the loop of one activation for the last port of the path: everything the search keeps, and what is
   known of the neighbours already taken. The tree and the back edges at entry are tree0 and met0.
   */
  ghost predicate Visiting(g: PortMap, tree0: Paths, met0: set<(Port, Port)>, tree: Paths, met: set<(Port, Port)>,
                           path: seq<Port>, todo: set<Port>) {
    && path != []
    && var node := path[|path| - 1];
    && node in g && todo <= g[node] && node in tree && node !in tree0
    && Searching(g, tree, met, path)
    && Grown(tree0, met0, tree, met)
    && (forall x {:trigger Handled(g, tree, met, node, x)} ::
          x in g[node] && x !in todo ==> Handled(g, tree, met, node, x))
    && (forall x :: (node, x) in met ==> x !in todo)
  }

  lemma StartVisit(g: PortMap, tree: Paths, met: set<(Port, Port)>, path: seq<Port>, node: Port)
    requires Searching(g, tree, met, path) && node in g && node !in tree
    requires path != [] ==> path[|path| - 1] in g && node in g[path[|path| - 1]]
    ensures Visiting(g, tree, met, tree[node := path + [node]], met, path + [node], g[node])
  {
    Enter(g, tree, met, path, node);
    assert forall e :: e in met ==> e.0 in tree;
  }

  /** The neighbour taken is handled, and no back edge of this port was added for another one. */
  lemma StepVisit(g: PortMap, tree0: Paths, met0: set<(Port, Port)>, tree1: Paths, met1: set<(Port, Port)>,
                  tree: Paths, met: set<(Port, Port)>, path: seq<Port>, todo: set<Port>, x: Port)
    requires Visiting(g, tree0, met0, tree1, met1, path, todo) && x in todo
    requires Searching(g, tree, met, path) && Extends(tree1, tree)
    requires Handled(g, tree, met, path[|path| - 1], x)
    requires Grown(tree1, met1, tree, met) || met == met1 + {(path[|path| - 1], x)}
    ensures Visiting(g, tree0, met0, tree, met, path, todo - {x})
  {
    var node := path[|path| - 1];
    forall y | y in g[node] && y !in todo - {x} ensures Handled(g, tree, met, node, y) {
      if y != x { HandledStable(g, tree1, met1, tree, met, node, y); }
    }
  }

  /** Leaving a port whose neighbours are all handled. */
  lemma EndVisit(g: PortMap, tree0: Paths, met0: set<(Port, Port)>, tree: Paths, met: set<(Port, Port)>,
                 path: seq<Port>)
    requires Visiting(g, tree0, met0, tree, met, path, {})
    ensures Searching(g, tree, met, path[..|path| - 1])
    ensures tree[path[|path| - 1]] == path
  {
    var node, rest := path[|path| - 1], path[..|path| - 1];
    assert HasTreePath(g, tree, node);
    forall v | v in tree && v !in rest ensures Finished(g, tree, met, v) {
      assert v in path ==> v == node;
    }
  }

  /** Meeting an ancestor that is not the parent: the cycle is long enough, and no earlier cycle has its ports. */
  lemma Meet(g: PortMap, tree: Paths, met: set<(Port, Port)>, path: seq<Port>, x: Port, idx: nat,
             cycles: seq<seq<Port>>, ids: set<multiset<Port>>)
    requires Searching(g, tree, met, path) && Agrees(tree, met, cycles, ids)
    requires idx < |path| && path[idx] == x
    requires var w := path[|path| - 1]; IsBackEdge(g, tree, w, x) && (w, x) !in met
    ensures var w := path[|path| - 1];
            && path[idx..] == Fundamental(tree, w, x)
            && |path[idx..]| >= 3
            && Searching(g, tree, met + {(w, x)}, path)
            && multiset(path[idx..]) !in ids
  {
    var w := path[|path| - 1];
    BackEdgeCloses(g, tree, w, x);
    AncestorPosition(g, tree, w, x);
    var met', cycle := met + {(w, x)}, path[idx..];
    forall v | v in tree && v !in path ensures Finished(g, tree, met', v) {
      FinishedStable(g, tree, met, tree, met', v);
    }
    if multiset(cycle) in ids {
      assert IdentityOf(cycles, multiset(cycle));
      var c :| c in cycles && multiset(c) == multiset(cycle);
      assert Reported(tree, met, c);
      BackEdgeFromPorts(g, tree, c[|c| - 1], c[0], w, x);
    }
  }

  /** Recording the cycle of a new back edge, if it crosses between switches, keeps the report exact. */
  lemma Record(g: PortMap, tree: Paths, met: set<(Port, Port)>, w: Port, x: Port, cycles: seq<seq<Port>>,
               ids: set<multiset<Port>>)
    requires Undirected(g) && IsTree(g, tree) && IsBackEdge(g, tree, w, x)
    requires Agrees(tree, met, cycles, ids)
    requires multiset(Fundamental(tree, w, x)) !in ids
    ensures var cycle := Fundamental(tree, w, x);
            if CrossesDevices(cycle) then Agrees(tree, met + {(w, x)}, cycles + [cycle], ids + {multiset(cycle)})
            else Agrees(tree, met + {(w, x)}, cycles, ids)
  {
    var cycle := Fundamental(tree, w, x);
    BackEdgeCloses(g, tree, w, x);
    var crosses := CrossesDevices(cycle);
    var met', cycles' := met + {(w, x)}, if crosses then cycles + [cycle] else cycles;
    assert IdentityOf(cycles, multiset(cycle)) ==> multiset(cycle) in ids;
    assert cycle !in cycles;
    forall c ensures c in cycles' <==> c in cycles || (crosses && c == cycle) { }
    forall i: nat, j: nat | i < j < |cycles'| ensures Differ(cycles', i, j) {
      if j < |cycles| { assert Differ(cycles, i, j); } else { assert cycles[i] in cycles; }
    }
    forall c | c in cycles' ensures Reported(tree, met', c) {
      assert c in cycles ==> Reported(tree, met, c);
    }
    forall e | e in met' ensures Mentions(tree, e, cycles') {
      assert e in met ==> Mentions(tree, e, cycles);
    }
    if crosses {
      forall m ensures m in ids + {multiset(cycle)} <==> IdentityOf(cycles', m) {
        assert m in ids <==> IdentityOf(cycles, m);
      }
    }
  }

  class CycleFinder {
    const graph: PortMap
    var visited: set<Port>
    var path: seq<Port>
    var foundCycleIds: set<multiset<Port>>
    var cycles: seq<seq<Port>>
    ghost var tree: Paths
    ghost var met: set<(Port, Port)>  // every back edge met, before the test for an external link

    ghost predicate Valid()
      reads this
    {
      && visited == tree.Keys
      && Agrees(tree, met, cycles, foundCycleIds)
      && Searching(graph, tree, met, path)
    }

    constructor (graph: PortMap)
      requires Undirected(graph)
      ensures Valid() && this.graph == graph && path == [] && visited == {} && cycles == []
    {
      this.graph := graph;
      visited, path, foundCycleIds, cycles := {}, [], {}, [];
      tree, met := map[], {};
    }

    /** The branch for a neighbour on the current path: both length and identity tests always pass. */
    method CloseCycle(neighbor: Port)
      requires Valid() && path != []
      requires var w := path[|path| - 1]; IsBackEdge(graph, tree, w, neighbor) && (w, neighbor) !in met
      modifies this`cycles, this`foundCycleIds, this`met
      ensures Valid()
      ensures met == old(met) + {(path[|path| - 1], neighbor)}
      ensures var c := Fundamental(tree, path[|path| - 1], neighbor);
              cycles == old(cycles) + (if CrossesDevices(c) then [c] else [])
    {
      ghost var w := path[|path| - 1];
      var idx := IndexOf(path, neighbor);
      var cycle := path[idx..];
      Meet(graph, tree, met, path, neighbor, idx, cycles, foundCycleIds);
      Record(graph, tree, met, w, neighbor, cycles, foundCycleIds);
      assert |cycle| >= 3;
      if |cycle| >= 3 {
        var external := HasExternal(cycle);
        if external {
          var cycleId := multiset(cycle);
          assert cycleId !in foundCycleIds;
          if cycleId !in foundCycleIds {
            foundCycleIds := foundCycleIds + {cycleId};
            cycles := cycles + [cycle];
          }
        }
      }
      met := met + {(w, neighbor)};
    }

    /** One iteration of the loop over the neighbours of the last port on the path. */
    method Visit(neighbor: Port, parent: Option<Port>, ghost todo: set<Port>, ghost tree0: Paths,
                 ghost met0: set<(Port, Port)>)
      requires Valid() && Visiting(graph, tree0, met0, tree, met, path, todo) && neighbor in todo
      requires parent == if |path| == 1 then None else Some(path[|path| - 2])
      modifies this
      ensures Valid() && path == old(path)
      ensures Visiting(graph, tree0, met0, tree, met, path, todo - {neighbor})
      ensures old(visited) <= visited
      decreases graph.Keys - visited, 1
    {
      ghost var tree1, met1 := tree, met;
      var node := path[|path| - 1];
      if parent == Some(neighbor) {
        ParentHandled(graph, tree, met, path, node);
      } else if neighbor in path {
        AncestorPosition(graph, tree, node, neighbor);
        CloseCycle(neighbor);
      } else if neighbor !in visited {
        Dfs(neighbor, Some(node));
      } else {
        NoCrossEdge(graph, tree, met, path, neighbor);
      }
      StepVisit(graph, tree0, met0, tree1, met1, tree, met, path, todo, neighbor);
    }

    /** Visits everything reachable from node without passing an already visited port. */
    method Dfs(node: Port, parent: Option<Port>)
      requires Valid() && node in graph && node !in visited
      requires parent == if path == [] then None else Some(path[|path| - 1])
      requires path != [] ==> path[|path| - 1] in graph && node in graph[path[|path| - 1]]
      modifies this
      ensures Valid() && path == old(path)
      ensures Grown(old(tree), old(met), tree, met)
      ensures node in tree && tree[node] == path + [node]
      decreases graph.Keys - visited, 0
    {
      ghost var tree0, met0, path0 := tree, met, path;
      StartVisit(graph, tree, met, path, node);
      AgreesStable(graph, tree, met, cycles, foundCycleIds, tree[node := path + [node]]);
      visited := visited + {node};
      path := path + [node];
      tree := tree[node := path];
      var todo := graph[node];
      while todo != {}
        invariant Valid() && path == path0 + [node] && node in visited && old(visited) <= visited
        invariant Visiting(graph, tree0, met0, tree, met, path, todo)
        decreases todo
      {
        var neighbor :| neighbor in todo;
        Visit(neighbor, parent, todo, tree0, met0);
        todo := todo - {neighbor};
      }
      EndVisit(graph, tree0, met0, tree, met, path);
      path := path[..|path| - 1];
      assert path == path0;
    }

    /** The outer loop: searches from every port not yet visited, in any order. */
    method Run()
      requires Valid() && path == []
      modifies this
      ensures Searched(graph, tree, met) && Reports(tree, met, cycles)
    {
      var roots := graph.Keys;
      while roots != {}
        invariant roots <= graph.Keys && graph.Keys - roots <= visited
        invariant Valid() && path == []
        decreases roots
      {
        var node :| node in roots;
        roots := roots - {node};
        if node !in visited {
          Dfs(node, None);
        }
      }
      assert tree.Keys == graph.Keys by {
        forall v | v in tree ensures v in graph { assert HasTreePath(graph, tree, v); }
      }
    }
  }
}
