/** The whole loop check: from LLDP rows to the number of active loops. */
module LoopDetection {
  import opened Graphs
  import opened Ports
  import opened DfsForest
  import opened SwitchLinks
  import opened Lldp
  import opened Cabling
  import opened CycleSearch
  import opened Coverage
  import opened Counting
  import opened CycleBounds
  import opened PortGraph

  /** The reported cycles reveal the redundant links, and nothing else. */
  ghost predicate RevealsLoops(links: set<Link>, cycles: seq<seq<Port>>) {
    forall l :: l in links ==> (Redundant(links, l) <==> exists c :: c in cycles && PassesThrough(c, l.0, l.1))
  }

  /** The cycles are those that one complete depth-first search of the port graph of the links reports. */
  ghost predicate FromSearch(links: set<Link>, cycles: seq<seq<Port>>) {
    exists g, tree, met :: IsPortGraph(links, g) && Searched(g, tree, met) && Reports(tree, met, cycles)
  }

  lemma CyclesRevealLoops(links: set<Link>, g: PortMap, tree: Paths, met: set<(Port, Port)>, cycles: seq<seq<Port>>)
    requires External(links) && OneWay(links) && IsPortGraph(links, g)
    requires Searched(g, tree, met) && Reports(tree, met, cycles)
    ensures RevealsLoops(links, cycles)
  {
    forall l | l in links
      ensures Redundant(links, l) <==> exists c :: c in cycles && PassesThrough(c, l.0, l.1)
    {
      assert l.0 in EndPorts(links) && Adjacent(links, l.0, l.1);
      RedundantInPortGraph(links, g, l);
      assert EdgesOf(g) - {l, (l.1, l.0)} == Without(g, l.0, l.1);
      ReportedExactly(g, tree, met, cycles, l.0, l.1);
    }
  }

  /** A step of a cycle from one switch to another is a link. */
  lemma CrossingStepIsLink(links: set<Link>, g: PortMap, c: seq<Port>) returns (l: Link)
    requires IsPortGraph(links, g) && IsSimpleCycle(g, c) && CrossesDevices(c)
    ensures l in links && PassesThrough(c, l.0, l.1)
  {
    var k: nat :| k < |c| && c[k].sw != c[Next(k, |c|)].sw;
    var p, q := c[k], c[Next(k, |c|)];
    assert q in g[p];
    l := if (p, q) in links then (p, q) else (q, p);
    assert {p, q} == {l.0, l.1};
  }

  /** Something is reported exactly when some link is redundant. */
  lemma AlarmExactly(links: set<Link>, g: PortMap, tree: Paths, met: set<(Port, Port)>, cycles: seq<seq<Port>>)
    requires External(links) && OneWay(links) && IsPortGraph(links, g)
    requires Searched(g, tree, met) && Reports(tree, met, cycles)
    ensures cycles != [] <==> HasLoop(links)
  {
    CyclesRevealLoops(links, g, tree, met, cycles);
    ReportedCyclesAreCycles(g, tree, met, cycles);
    if cycles != [] {
      assert cycles[0] in cycles;
      var l := CrossingStepIsLink(links, g, cycles[0]);
      assert Redundant(links, l);
    }
    if l :| Redundant(links, l) {
      var c :| c in cycles && PassesThrough(c, l.0, l.1);
    }
  }

  /** The links determine the port graph, in whatever order it is built. */
  lemma OnePortGraph(links: set<Link>, g: PortMap, h: PortMap)
    requires IsPortGraph(links, g) && IsPortGraph(links, h)
    ensures g == h
  {
    forall u | u in g ensures g[u] == h[u] {
      forall v ensures v in g[u] <==> v in h[u] {
        assert v in g[u] <==> Adjacent(links, u, v) || (v in g && u != v && u.sw == v.sw);
        assert v in h[u] <==> Adjacent(links, u, v) || (v in h && u != v && u.sw == v.sw);
      }
    }
  }

  /**
   The loop check. Sets and dictionaries are taken in arbitrary order throughout, so what is ensured holds for
   every order.
   */
  method DetectLoops(t: PortText, nbs: Neighbors)
    returns (activeLoops: nat, links: set<Link>, selfLoops: set<SelfLoop>, cycles: seq<seq<Port>>)
    ensures forall l :: l in links <==> LinkTold(t, nbs, l)
    ensures forall s :: s in selfLoops <==> LoopTold(t, nbs, s)
    ensures activeLoops == |cycles| + |selfLoops|
    ensures activeLoops > 0
            <==> (exists s :: LoopTold(t, nbs, s))
                 || |links| + |Components(Switches(links), SwitchPairs(links))| > |Switches(links)|
    ensures |cycles| + |Switches(links)| >= |links| + |Components(Switches(links), SwitchPairs(links))|
    ensures cycles != [] <==> HasLoop(links)
    ensures forall cables :: External(cables) && OneWay(cables) && Describes(t, nbs, cables) ==>
              |links| == |cables| && (activeLoops > 0 <==> HasLoop(cables))
    ensures FromSearch(links, cycles)
    ensures RevealsLoops(links, cycles)
    ensures forall i, j :: 0 <= i < j < |cycles| ==> multiset(cycles[i]) != multiset(cycles[j])
    ensures forall g :: IsPortGraph(links, g) ==>
              && (forall c :: c in cycles ==> IsSimpleCycle(g, c) && CrossesDevices(c))
              && |cycles| + |g| <= |UndirectedEdges(g)| + |Components(g.Keys, EdgesOf(g))|
  {
    links, selfLoops := CollectLinks(t, nbs);
    FoundLinksAreSorted(t, nbs, links);
    var builder := new Builder();
    builder.Build(links);
    var finder := new CycleFinder(builder.graph);
    finder.Run();
    cycles := finder.cycles;
    activeLoops := |cycles| + |selfLoops|;

    assert IsPortGraph(links, finder.graph);
    CyclesRevealLoops(links, finder.graph, finder.tree, finder.met, cycles);
    AlarmExactly(links, finder.graph, finder.tree, finder.met, cycles);
    ReportedCyclesAreCycles(finder.graph, finder.tree, finder.met, cycles);
    ReportedCount(finder.graph, finder.tree, finder.met, cycles);
    ReportedAtLeast(links, finder.graph, finder.tree, finder.met, cycles);
    forall g | IsPortGraph(links, g) ensures g == finder.graph { OnePortGraph(links, g, finder.graph); }
    LoopByCounting(Switches(links), links);
    if selfLoops != {} {
      var s :| s in selfLoops;
      assert LoopTold(t, nbs, s);
    }
    forall cables | External(cables) && OneWay(cables) && Describes(t, nbs, cables)
      ensures |links| == |cables| && (activeLoops > 0 <==> HasLoop(cables))
    {
      LinksAreCables(t, nbs, cables, links, selfLoops);
      SameLoops(links, cables);
    }
  }
}
