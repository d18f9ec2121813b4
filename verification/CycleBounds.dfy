/**
 How few cycles a search can report: at least one for every link beyond a spanning forest of the switches. The
 cycles that stay inside one switch, which are not reported, are no more than the cliques of ports account for.
 */
module CycleBounds {
  import opened Collections
  import opened Graphs
  import opened Ports
  import opened DfsForest
  import opened CycleSearch
  import opened Counting
  import opened SwitchLinks

  // ----- components and edges

  /** Each edge joins at most two components. */
  lemma {:induction false} FewEdgesManyComponents<V(!new)>(vertices: set<V>, edges: set<(V, V)>)
    requires forall e :: e in edges ==> e.0 in vertices && e.1 in vertices
    ensures |Components(vertices, edges)| + |edges| >= |vertices|
    decreases |edges|
  {
    if edges == {} {
      NoEdges(vertices);
    } else {
      var e :| e in edges;
      var rest := edges - {e};
      FewEdgesManyComponents(vertices, rest);
      AddEdge(vertices, rest, e);
      assert rest + {e} == edges;
    }
  }

  lemma {:induction false} ImageAtMost<A(!new), B>(xs: set<A>, f: A -> B)
    ensures |Image(xs, f)| <= |xs|
    decreases xs
  {
    if xs == {} {
      assert Image(xs, f) == {};
    } else {
      var x :| x in xs;
      ImageAtMost(xs - {x}, f);
      assert Image(xs, f) == Image(xs - {x}, f) + {f(x)};
    }
  }

  // ----- the edges inside switches that do not close an unreported cycle

  predicate SameSwitch(e: (Port, Port)) {
    e.0.sw == e.1.sw
  }

  ghost function InnerTree(tree: Paths): (edges: set<(Port, Port)>) {
    set e | e in TreeEdges(tree) && SameSwitch(e)
  }

  ghost function OuterTree(tree: Paths): (edges: set<(Port, Port)>) {
    set e | e in TreeEdges(tree) && !SameSwitch(e)
  }

  ghost function InnerCrossing(tree: Paths, met: set<(Port, Port)>): (edges: set<(Port, Port)>) {
    set e | e in CrossingBackEdges(tree, met) && SameSwitch(e)
  }

  ghost function OuterBack(met: set<(Port, Port)>): (edges: set<(Port, Port)>) {
    set e | e in met && !SameSwitch(e)
  }

  ghost function Inner(tree: Paths, met: set<(Port, Port)>): (edges: set<(Port, Port)>) {
    InnerTree(tree) + InnerCrossing(tree, met)
  }

  /** The steps of a tree path are tree edges. */
  lemma PathStep(g: PortMap, tree: Paths, w: Port, i: nat)
    requires IsTree(g, tree) && w in tree && i + 1 < |tree[w]|
    ensures (tree[w][i + 1], tree[w][i]) in TreeEdges(tree)
  {
    PathPrefix(g, tree, w, i + 1);
    var v := tree[w][i + 1];
    assert v in tree.Keys - Roots(tree) && ParentOf(tree, v) == tree[w][i];
  }

  /** A back edge inside a switch is replaced by inner edges, when it is not one itself. */
  lemma BackEdgeInside(g: PortMap, tree: Paths, met: set<(Port, Port)>, w: Port, x: Port)
    requires Searched(g, tree, met) && IsBackEdge(g, tree, w, x) && (w, x) in met && w.sw == x.sw
    ensures Connected(Inner(tree, met), w, x)
  {
    var inner, c := Inner(tree, met), Fundamental(tree, w, x);
    BackEdgeCloses(g, tree, w, x);
    if CrossesDevices(c) {
      assert (w, x) in inner;
      ConnectedStep(inner, w, x);
    } else {
      var d := |tree[x]| - 1;
      forall k | 0 <= k < |c| - 1 ensures Adjacent(inner, c[k], c[k + 1]) {
        assert Next(k, |c|) == k + 1;
        PathStep(g, tree, w, d + k);
        assert (c[k + 1], c[k]) in InnerTree(tree);
      }
      assert IsWalk(inner, c, x, w);
      ConnectedSym(inner, x, w);
    }
  }

  lemma UpEdgeInside(g: PortMap, tree: Paths, met: set<(Port, Port)>, a: Port, b: Port)
    requires Searched(g, tree, met) && a in g && b in g[a] && b in tree[a] && a.sw == b.sw
    ensures Connected(Inner(tree, met), a, b)
  {
    UpEdgesSplit(g, tree, met);
    assert (a, b) in UpEdges(g, tree);
    if (a, b) in met {
      assert IsBackEdge(g, tree, a, b);
      BackEdgeInside(g, tree, met, a, b);
    } else {
      assert (a, b) in InnerTree(tree);
      ConnectedStep(Inner(tree, met), a, b);
    }
  }

  /** The inner edges join all ports of one switch. */
  lemma SwitchStaysWhole(links: set<Link>, g: PortMap, tree: Paths, met: set<(Port, Port)>, a: Port, b: Port)
    requires IsPortGraph(links, g) && Searched(g, tree, met) && a in g && b in g && a.sw == b.sw
    ensures Connected(Inner(tree, met), a, b)
  {
    var inner := Inner(tree, met);
    if a == b {
      ConnectedRefl(inner, a);
    } else {
      assert b in g[a] && a in g[b];
      assert Finished(g, tree, met, a);
      assert Handled(g, tree, met, a, b);
      if b in tree[a] {
        UpEdgeInside(g, tree, met, a, b);
      } else {
        UpEdgeInside(g, tree, met, b, a);
        ConnectedSym(inner, b, a);
      }
    }
  }

  ghost function SomePort(ports: set<Port>, sw: string): (p: Port) {
    if exists p :: p in ports && p.sw == sw then var p :| p in ports && p.sw == sw; p else Port(sw, "")
  }

  lemma InnerEdgesJoinPorts(g: PortMap, tree: Paths, met: set<(Port, Port)>)
    requires Searched(g, tree, met)
    ensures forall e :: e in Inner(tree, met) ==> e.0 in g.Keys && e.1 in g.Keys
  {
    UpEdgesSplit(g, tree, met);
    forall e | e in Inner(tree, met) ensures e.0 in g.Keys && e.1 in g.Keys {
      assert e in UpEdges(g, tree);
    }
  }

  /** A component of the ports for each switch at most. */
  lemma InnerComponents(links: set<Link>, g: PortMap, tree: Paths, met: set<(Port, Port)>)
    requires IsPortGraph(links, g) && Searched(g, tree, met)
    ensures |Components(g.Keys, Inner(tree, met))| <= |Switches(links)|
  {
    var inner, switches := Inner(tree, met), Switches(links);
    var f := (sw: string) => ComponentOf(g.Keys, inner, SomePort(g.Keys, sw));
    forall c | c in Components(g.Keys, inner) ensures c in Image(switches, f) {
      var p :| p in g.Keys && c == ComponentOf(g.Keys, inner, p);
      var q := SomePort(g.Keys, p.sw);
      SwitchStaysWhole(links, g, tree, met, p, q);
      SameComponent(g.Keys, inner, p, q);
      assert p.sw in switches && c == f(p.sw);
    }
    SubsetSize(Components(g.Keys, inner), Image(switches, f));
    ImageAtMost(switches, f);
  }

  /** So the inner edges are at least ports minus switches. */
  lemma ManyInnerEdges(links: set<Link>, g: PortMap, tree: Paths, met: set<(Port, Port)>)
    requires IsPortGraph(links, g) && Searched(g, tree, met)
    ensures |Inner(tree, met)| + |Switches(links)| >= |g.Keys|
  {
    InnerEdgesJoinPorts(g, tree, met);
    FewEdgesManyComponents(g.Keys, Inner(tree, met));
    InnerComponents(links, g, tree, met);
  }

  // ----- the edges between switches

  /** Of the two directions of an edge only one goes up. */
  lemma NotBothUp(g: PortMap, tree: Paths, met: set<(Port, Port)>, e: (Port, Port))
    requires Searched(g, tree, met) && e in UpEdges(g, tree)
    ensures (e.1, e.0) !in UpEdges(g, tree)
  {
    AncestorPosition(g, tree, e.0, e.1);
    if e.0 in tree[e.1] { AncestorPosition(g, tree, e.1, e.0); }
  }

  lemma LinkIsOuter(links: set<Link>, g: PortMap, tree: Paths, met: set<(Port, Port)>, l: Link)
    requires External(links) && IsPortGraph(links, g) && Searched(g, tree, met) && l in links
    ensures (l in UpEdges(g, tree) || (l.1, l.0) in UpEdges(g, tree)) && !SameSwitch(l)
  {
    assert l.0 in EndPorts(links) && l.1 in EndPorts(links);
    assert l.1 in g[l.0] && l.0 in g[l.1];
    assert Finished(g, tree, met, l.0);
    assert Handled(g, tree, met, l.0, l.1);
  }

  ghost function Outer(tree: Paths, met: set<(Port, Port)>): (edges: set<(Port, Port)>) {
    OuterTree(tree) + OuterBack(met)
  }

  lemma OuterIsUp(g: PortMap, tree: Paths, met: set<(Port, Port)>)
    requires Searched(g, tree, met)
    ensures forall e :: e in Outer(tree, met) <==> e in UpEdges(g, tree) && !SameSwitch(e)
    ensures |Outer(tree, met)| == |OuterTree(tree)| + |OuterBack(met)|
  {
    UpEdgesSplit(g, tree, met);
    assert OuterTree(tree) !! OuterBack(met);
  }

  ghost function LinkOf(links: set<Link>, e: (Port, Port)): (link: Link) {
    if e in links then e else (e.1, e.0)
  }

  lemma LinkOfOuter(links: set<Link>, g: PortMap, tree: Paths, met: set<(Port, Port)>, e: (Port, Port))
    requires IsPortGraph(links, g) && Searched(g, tree, met) && e in Outer(tree, met)
    ensures LinkOf(links, e) in links
  {
    OuterIsUp(g, tree, met);
    assert e.1 in g[e.0];
  }

  lemma OuterByLink(links: set<Link>, g: PortMap, tree: Paths, met: set<(Port, Port)>, d: (Port, Port), e: (Port, Port))
    requires Searched(g, tree, met) && d in Outer(tree, met) && e in Outer(tree, met)
            && LinkOf(links, d) == LinkOf(links, e)
    ensures d == e
  {
    OuterIsUp(g, tree, met);
    NotBothUp(g, tree, met, e);
  }

  lemma OuterOfLink(links: set<Link>, g: PortMap, tree: Paths, met: set<(Port, Port)>, l: Link)
    returns (e: (Port, Port))
    requires External(links) && OneWay(links) && IsPortGraph(links, g) && Searched(g, tree, met) && l in links
    ensures e in Outer(tree, met) && LinkOf(links, e) == l
  {
    OuterIsUp(g, tree, met);
    LinkIsOuter(links, g, tree, met, l);
    e := if l in UpEdges(g, tree) then l else (l.1, l.0);
  }

  /** The edges between switches, each named from its deeper end, are as many as the links. */
  lemma OuterEdgesAreLinks(links: set<Link>, g: PortMap, tree: Paths, met: set<(Port, Port)>)
    requires External(links) && OneWay(links) && IsPortGraph(links, g) && Searched(g, tree, met)
    ensures |Outer(tree, met)| == |links|
  {
    var outer, f := Outer(tree, met), (e: (Port, Port)) => LinkOf(links, e);
    forall e | e in outer ensures f(e) in links { LinkOfOuter(links, g, tree, met, e); }
    forall d, e | d in outer && e in outer && f(d) == f(e) ensures d == e { OuterByLink(links, g, tree, met, d, e); }
    ImageSize(outer, f);
    forall l | l in links ensures l in Image(outer, f) {
      var e := OuterOfLink(links, g, tree, met, l);
      assert l == f(e);
    }
    assert Image(outer, f) == links;
  }

  /** An edge between switches crosses on the cycle it closes. */
  lemma OuterBackCrosses(g: PortMap, tree: Paths, met: set<(Port, Port)>)
    requires Searched(g, tree, met)
    ensures CrossingBackEdges(tree, met) == InnerCrossing(tree, met) + OuterBack(met)
  {
    forall e | e in OuterBack(met) ensures e in CrossingBackEdges(tree, met) {
      assert IsBackEdge(g, tree, e.0, e.1);
      BetweenSwitchesCrosses(g, tree, e.0, e.1);
    }
  }

  /** A back edge between two switches is itself an external step of its cycle. */
  lemma BetweenSwitchesCrosses(g: PortMap, tree: Paths, w: Port, x: Port)
    requires Undirected(g) && IsTree(g, tree) && IsBackEdge(g, tree, w, x) && w.sw != x.sw
    ensures CrossesDevices(Fundamental(tree, w, x))
  {
    BackEdgeCloses(g, tree, w, x);
    var c := Fundamental(tree, w, x);
    assert Next(|c| - 1, |c|) == 0;
  }

  lemma Sizes(g: PortMap, tree: Paths, met: set<(Port, Port)>)
    requires Searched(g, tree, met)
    ensures |CrossingBackEdges(tree, met)| == |InnerCrossing(tree, met)| + |OuterBack(met)|
    ensures |Inner(tree, met)| <= |InnerTree(tree)| + |InnerCrossing(tree, met)|
    ensures |TreeEdges(tree)| == |InnerTree(tree)| + |OuterTree(tree)|
  {
    OuterBackCrosses(g, tree, met);
    assert InnerCrossing(tree, met) !! OuterBack(met);
    assert TreeEdges(tree) == InnerTree(tree) + OuterTree(tree) && InnerTree(tree) !! OuterTree(tree);
  }

  /** Every search reports at least links minus switches plus components cycles. */
  lemma ReportedAtLeast(links: set<Link>, g: PortMap, tree: Paths, met: set<(Port, Port)>, cycles: seq<seq<Port>>)
    requires External(links) && OneWay(links) && IsPortGraph(links, g)
    requires Searched(g, tree, met) && Reports(tree, met, cycles)
    ensures |cycles| + |Switches(links)| >= |links| + |Components(Switches(links), SwitchPairs(links))|
  {
    ReportedCount(g, tree, met, cycles);
    Sizes(g, tree, met);
    OuterIsUp(g, tree, met);
    OuterEdgesAreLinks(links, g, tree, met);
    ManyInnerEdges(links, g, tree, met);
    TreeEdgesCount(tree);
    RootsCount(g, tree, met);
    SameComponentCount(links, g);
    assert |tree| == |tree.Keys|;
  }
}
