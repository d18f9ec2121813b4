/** How many back edges the search meets, and how many cycles it reports. */
module Counting {
  import opened Collections
  import opened Graphs
  import opened Ports
  import opened DfsForest
  import opened CycleSearch

  /** The undirected edges of the graph, each one once. */
  ghost function UndirectedEdges(g: PortMap): (edges: set<set<Port>>) {
    set u, v | u in g && v in g[u] :: {u, v}
  }

  /** The same edges, each named from its deeper end. */
  ghost function UpEdges(g: PortMap, tree: Paths): (edges: set<(Port, Port)>) {
    set v, x | v in g && x in g[v] && v in tree && x in tree[v] :: (v, x)
  }

  ghost function Roots(tree: Paths): (roots: set<Port>) {
    set v | v in tree && |tree[v]| == 1
  }

  ghost function ParentOf(tree: Paths, v: Port): (parent: Port) {
    if v in tree && |tree[v]| > 1 then tree[v][|tree[v]| - 2] else v
  }

  ghost function TreeEdges(tree: Paths): (edges: set<(Port, Port)>) {
    set v | v in tree.Keys - Roots(tree) :: (v, ParentOf(tree, v))
  }

  lemma UpEdgesCount(g: PortMap, tree: Paths, met: set<(Port, Port)>)
    requires Searched(g, tree, met)
    ensures |UpEdges(g, tree)| == |UndirectedEdges(g)|
  {
    var up := UpEdges(g, tree);
    var f := (e: (Port, Port)) => {e.0, e.1};
    forall d, e | d in up && e in up && f(d) == f(e) ensures d == e {
      assert d.0 in f(e) && d.1 in f(e) && e.0 in f(d) && e.1 in f(d);
      AncestorPosition(g, tree, d.0, d.1);
      AncestorPosition(g, tree, e.0, e.1);
    }
    ImageSize(up, f);
    var image := Image(up, f);
    forall s ensures s in image <==> s in UndirectedEdges(g) {
      if s in image {
        var e :| e in up && s == f(e);
      }
      if s in UndirectedEdges(g) {
        var u, v :| u in g && v in g[u] && s == {u, v};
        assert Finished(g, tree, met, u);
        assert Handled(g, tree, met, u, v);
        assert s == f((u, v)) && s == f((v, u));
        assert (u, v) in up || (v, u) in up;
      }
    }
    assert image == UndirectedEdges(g);
  }

  lemma UpEdgesSplit(g: PortMap, tree: Paths, met: set<(Port, Port)>)
    requires Searched(g, tree, met)
    ensures UpEdges(g, tree) == TreeEdges(tree) + met && TreeEdges(tree) !! met
  {
    forall e | e in UpEdges(g, tree) ensures e in TreeEdges(tree) + met {
      assert Finished(g, tree, met, e.0);
      assert Handled(g, tree, met, e.0, e.1);
      AncestorPosition(g, tree, e.0, e.1);
      assert HasTreePath(g, tree, e.0);
      assert IsParent(tree, e.0, e.1) ==> e.0 in tree.Keys - Roots(tree) && e == (e.0, ParentOf(tree, e.0));
    }
    forall e | e in TreeEdges(tree) ensures e in UpEdges(g, tree) {
      assert HasTreePath(g, tree, e.0);
    }
    forall e | e in met ensures e in UpEdges(g, tree) && e !in TreeEdges(tree) {
      assert IsBackEdge(g, tree, e.0, e.1);
    }
  }

  lemma TreeEdgesCount(tree: Paths)
    ensures |TreeEdges(tree)| + |Roots(tree)| == |tree|
  {
    var children := tree.Keys - Roots(tree);
    var f := (v: Port) => (v, ParentOf(tree, v));
    ImageSize(children, f);
    assert TreeEdges(tree) == Image(children, f);
    assert Roots(tree) <= tree.Keys;
    assert |children| == |tree.Keys| - |Roots(tree)|;
  }

  /** Every port of a component hangs under the same root. */
  lemma {:induction false} WalkKeepsRoot(g: PortMap, tree: Paths, met: set<(Port, Port)>, w: seq<Port>, a: Port,
                                         b: Port)
    requires Searched(g, tree, met) && a in g && IsWalk(EdgesOf(g), w, a, b)
    ensures b in g && |tree[a]| > 0 && |tree[b]| > 0 && tree[a][0] == tree[b][0]
    decreases |w|
  {
    assert HasTreePath(g, tree, a);
    if |w| > 1 {
      assert Adjacent(EdgesOf(g), w[0], w[0 + 1]);
      assert Finished(g, tree, met, a);
      assert Handled(g, tree, met, a, w[1]);
      if w[1] in tree[a] { AncestorPosition(g, tree, a, w[1]); } else { AncestorPosition(g, tree, w[1], a); }
      forall i | 0 <= i < |w[1..]| - 1 ensures Adjacent(EdgesOf(g), w[1..][i], w[1..][i + 1]) {
        assert Adjacent(EdgesOf(g), w[i + 1], w[i + 1 + 1]);
      }
      WalkKeepsRoot(g, tree, met, w[1..], w[1], b);
    }
  }

  /** Tree paths are walks of the graph. */
  lemma RootConnected(g: PortMap, tree: Paths, v: Port)
    requires IsTree(g, tree) && v in tree
    ensures |tree[v]| > 0 && tree[v][0] in tree && tree[tree[v][0]] == [tree[v][0]]
    ensures Connected(EdgesOf(g), tree[v][0], v)
  {
    assert HasTreePath(g, tree, v);
    PathPrefix(g, tree, v, 0);
    forall i | 0 <= i < |tree[v]| - 1 ensures Adjacent(EdgesOf(g), tree[v][i], tree[v][i + 1]) {
      PathAdjacent(g, tree, v, i);
    }
    assert IsWalk(EdgesOf(g), tree[v], tree[v][0], v);
  }

  lemma RootsCount(g: PortMap, tree: Paths, met: set<(Port, Port)>)
    requires Searched(g, tree, met)
    ensures |Roots(tree)| == |Components(g.Keys, EdgesOf(g))|
  {
    var roots, edges := Roots(tree), EdgesOf(g);
    var f := (r: Port) => ComponentOf(g.Keys, edges, r);
    forall r, s | r in roots && s in roots && f(r) == f(s) ensures r == s {
      SameComponent(g.Keys, edges, r, s);
      var w :| IsWalk(edges, w, r, s);
      WalkKeepsRoot(g, tree, met, w, r, s);
      assert HasTreePath(g, tree, r) && HasTreePath(g, tree, s);
    }
    ImageSize(roots, f);
    var image := Image(roots, f);
    forall c ensures c in image <==> c in Components(g.Keys, edges) {
      if c in Components(g.Keys, edges) {
        var a :| a in g.Keys && c == ComponentOf(g.Keys, edges, a);
        RootConnected(g, tree, a);
        SameComponent(g.Keys, edges, tree[a][0], a);
        assert tree[a][0] in roots && f(tree[a][0]) == c;
      }
    }
    assert image == Components(g.Keys, edges);
  }

  /** The back edges met number exactly edges minus ports plus components, in whatever order the search ran. */
  lemma BackEdgesCount(g: PortMap, tree: Paths, met: set<(Port, Port)>)
    requires Searched(g, tree, met)
    ensures |met| + |g| == |UndirectedEdges(g)| + |Components(g.Keys, EdgesOf(g))|
  {
    UpEdgesCount(g, tree, met);
    UpEdgesSplit(g, tree, met);
    TreeEdgesCount(tree);
    RootsCount(g, tree, met);
    assert |TreeEdges(tree) + met| == |TreeEdges(tree)| + |met|;
    assert |tree| == |tree.Keys| == |g.Keys| == |g|;
  }

  ghost function CrossingBackEdges(tree: Paths, met: set<(Port, Port)>): (edges: set<(Port, Port)>) {
    set e | e in met && CrossesDevices(Fundamental(tree, e.0, e.1))
  }

  /** The cycles reported are as many as the back edges whose cycle crosses between switches. */
  lemma ReportedCount(g: PortMap, tree: Paths, met: set<(Port, Port)>, cycles: seq<seq<Port>>)
    requires Searched(g, tree, met) && Reports(tree, met, cycles)
    ensures |cycles| == |CrossingBackEdges(tree, met)|
    ensures |cycles| + |g| <= |UndirectedEdges(g)| + |Components(g.Keys, EdgesOf(g))|
  {
    BackEdgesCount(g, tree, met);
    var crossing := CrossingBackEdges(tree, met);
    var f := (e: (Port, Port)) => Fundamental(tree, e.0, e.1);
    forall d, e | d in crossing && e in crossing && f(d) == f(e) ensures d == e {
      BackEdgeFromPorts(g, tree, d.0, d.1, e.0, e.1);
    }
    ImageSize(crossing, f);
    var image := Image(crossing, f);
    forall c ensures c in image <==> c in (set c | c in cycles) {
      if c in image {
        var e :| e in crossing && c == f(e);
        assert Mentions(tree, e, cycles);
      }
      if c in cycles {
        assert Reported(tree, met, c);
        assert (c[|c| - 1], c[0]) in crossing && c == f((c[|c| - 1], c[0]));
      }
    }
    assert image == set c | c in cycles;
    forall i, j | 0 <= i < j < |cycles| ensures cycles[i] != cycles[j] { assert Differ(cycles, i, j); }
    DistinctSize(cycles, image);
    SubsetSize(crossing, met);
  }
}
