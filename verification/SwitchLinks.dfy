/** The switch-level picture: switches as vertices, links as the edges of a multigraph. */
module SwitchLinks {
  import opened Graphs
  import opened Ports
  import opened DfsForest

  /** No link has both ends on one switch; the program keeps those apart as self loops. */
  ghost predicate External(links: set<Link>) {
    forall l :: l in links ==> l.0.sw != l.1.sw
  }

  /** Links are stored smaller port first, so no link is another one reversed. */
  ghost predicate OneWay(links: set<Link>) {
    forall l :: l in links ==> (l.1, l.0) !in links
  }

  ghost function EndPorts(links: set<Link>): (ports: set<Port>) {
    (set l | l in links :: l.0) + (set l | l in links :: l.1)
  }

  ghost function Switches(links: set<Link>): (switches: set<string>) {
    set p | p in EndPorts(links) :: p.sw
  }

  /** The pairs of switches that some link joins; parallel links give the same pair. */
  ghost function SwitchPairs(links: set<Link>): (pairs: set<(string, string)>) {
    set l | l in links :: (l.0.sw, l.1.sw)
  }

  /** The two switches of the link stay connected when it is pulled: it closes a loop. */
  ghost predicate Redundant(links: set<Link>, l: Link) {
    l in links && Connected(SwitchPairs(links - {l}), l.0.sw, l.1.sw)
  }

  ghost predicate HasLoop(links: set<Link>) {
    exists l :: Redundant(links, l)
  }

  // ----- counting: a multigraph without redundant links is a forest

  lemma SwitchPairsAdd(links: set<Link>, l: Link)
    requires l in links
    ensures SwitchPairs(links) == SwitchPairs(links - {l}) + {(l.0.sw, l.1.sw)}
  {
    assert links == (links - {l}) + {l};
  }

  lemma RedundantMono(links: set<Link>, more: set<Link>, l: Link)
    requires Redundant(links, l) && links <= more
    ensures Redundant(more, l)
  {
    assert SwitchPairs(links - {l}) <= SwitchPairs(more - {l}) by {
      forall e | e in SwitchPairs(links - {l}) ensures e in SwitchPairs(more - {l}) {
        var k :| k in links - {l} && e == (k.0.sw, k.1.sw);
        assert k in more - {l};
      }
    }
    ConnectedMono(SwitchPairs(links - {l}), SwitchPairs(more - {l}), l.0.sw, l.1.sw);
  }

  /** Some link is redundant exactly when the links outnumber the switches minus the connected components. */
  lemma {:induction false} LoopByCounting(switches: set<string>, links: set<Link>)
    requires Switches(links) <= switches
    ensures |links| + |Components(switches, SwitchPairs(links))| >= |switches|
    ensures HasLoop(links) <==> |links| + |Components(switches, SwitchPairs(links))| > |switches|
    decreases |links|
  {
    if links == {} {
      assert SwitchPairs(links) == {};
      NoEdges(switches);
    } else {
      var l :| l in links;
      if HasLoop(links) { l :| Redundant(links, l); }
      var rest := links - {l};
      assert Switches(rest) <= switches by {
        forall s | s in Switches(rest) ensures s in Switches(links) {
          var p :| p in EndPorts(rest) && p.sw == s;
          assert p in EndPorts(links);
        }
      }
      LoopByCounting(switches, rest);
      SwitchPairsAdd(links, l);
      assert l.0 in EndPorts(links) && l.1 in EndPorts(links);
      AddEdge(switches, SwitchPairs(rest), (l.0.sw, l.1.sw));
      if HasLoop(rest) {
        var k :| Redundant(rest, k);
        RedundantMono(rest, links, k);
      }
      assert !HasLoop(links) ==> !Redundant(links, l);
    }
  }

  // ----- the port graph of a set of links

  /** Ports are adjacent when a link joins them, and when they are two ports of one switch. */
  ghost predicate IsPortGraph(links: set<Link>, g: PortMap) {
    && g.Keys == EndPorts(links)
    && forall u, v :: u in g ==> (v in g[u] <==> Adjacent(links, u, v) || (v in g && u != v && u.sw == v.sw))
  }

  lemma PortGraphUndirected(links: set<Link>, g: PortMap)
    requires External(links) && IsPortGraph(links, g)
    ensures Undirected(g)
  {
    forall u, v | u in g && v in g[u] ensures v in g && u in g[v] {
      if Adjacent(links, u, v) {
        var l := if (u, v) in links then (u, v) else (v, u);
        assert l.0 in EndPorts(links) && l.1 in EndPorts(links);
      }
    }
  }

  /** The edges of the port graph without those of the dropped links. */
  ghost function WithoutLinks(g: PortMap, dropped: set<Link>): (edges: set<(Port, Port)>) {
    set e | e in EdgesOf(g) && e !in dropped && (e.1, e.0) !in dropped
  }

  /** A walk in the port graph that avoids some links passes through switches joined by the other links. */
  lemma {:induction false} PortWalkToSwitchWalk(links: set<Link>, g: PortMap, dropped: set<Link>, w: seq<Port>,
                                                a: Port, b: Port)
    requires External(links) && IsPortGraph(links, g)
    requires IsWalk(WithoutLinks(g, dropped), w, a, b)
    ensures Connected(SwitchPairs(links - dropped), a.sw, b.sw)
    decreases |w|
  {
    var edges, pairs := WithoutLinks(g, dropped), SwitchPairs(links - dropped);
    if |w| == 1 {
      ConnectedRefl(pairs, a.sw);
    } else {
      var c := w[1];
      forall i | 0 <= i < |w[1..]| - 1 ensures Adjacent(edges, w[1..][i], w[1..][i + 1]) {
        assert Adjacent(edges, w[i + 1], w[i + 1 + 1]);
      }
      PortWalkToSwitchWalk(links, g, dropped, w[1..], c, b);
      assert Adjacent(edges, w[0], w[0 + 1]);
      PortGraphUndirected(links, g);
      if a.sw != c.sw {
        var k := if (a, c) in links then (a, c) else (c, a);
        assert k in links - dropped;
        assert (k.0.sw, k.1.sw) in pairs;
        ConnectedStep(pairs, a.sw, c.sw);
        ConnectedTrans(pairs, a.sw, c.sw, b.sw);
      }
    }
  }

  /** Two ports of one switch are joined without using any link. */
  lemma SameSwitchConnected(links: set<Link>, g: PortMap, dropped: set<Link>, a: Port, b: Port)
    requires External(links) && IsPortGraph(links, g) && dropped <= links && a in g && b in g && a.sw == b.sw
    ensures Connected(WithoutLinks(g, dropped), a, b)
  {
    var edges := WithoutLinks(g, dropped);
    if a == b {
      ConnectedRefl(edges, a);
    } else {
      assert b in g[a];
      assert (a, b) in edges;
      ConnectedStep(edges, a, b);
    }
  }

  /** Conversely a walk between switches can be followed port by port. */
  lemma {:induction false} SwitchWalkToPortWalk(links: set<Link>, g: PortMap, dropped: set<Link>, w: seq<string>,
                                                a: Port, b: Port)
    requires External(links) && OneWay(links) && IsPortGraph(links, g) && dropped <= links && a in g && b in g
    requires IsWalk(SwitchPairs(links - dropped), w, a.sw, b.sw)
    ensures Connected(WithoutLinks(g, dropped), a, b)
    decreases |w|
  {
    var edges, pairs := WithoutLinks(g, dropped), SwitchPairs(links - dropped);
    if |w| == 1 {
      SameSwitchConnected(links, g, dropped, a, b);
    } else {
      assert Adjacent(pairs, w[0], w[0 + 1]);
      var k :| k in links - dropped && ((k.0.sw, k.1.sw) == (w[0], w[1]) || (k.0.sw, k.1.sw) == (w[1], w[0]));
      var c, d := if k.0.sw == w[0] then k.0 else k.1, if k.0.sw == w[0] then k.1 else k.0;
      assert k.0 in EndPorts(links) && k.1 in EndPorts(links);
      forall i | 0 <= i < |w[1..]| - 1 ensures Adjacent(pairs, w[1..][i], w[1..][i + 1]) {
        assert Adjacent(pairs, w[i + 1], w[i + 1 + 1]);
      }
      SwitchWalkToPortWalk(links, g, dropped, w[1..], d, b);
      SameSwitchConnected(links, g, dropped, a, c);
      assert Adjacent(links, c, d) && d in g[c];
      assert (c, d) in edges;
      ConnectedStep(edges, c, d);
      ConnectedTrans(edges, a, c, d);
      ConnectedTrans(edges, a, d, b);
    }
  }

  /** Contracting each switch to a point keeps connectivity, whichever links are dropped. */
  lemma ContractionKeepsConnectivity(links: set<Link>, g: PortMap, dropped: set<Link>, a: Port, b: Port)
    requires External(links) && OneWay(links) && IsPortGraph(links, g) && dropped <= links && a in g && b in g
    ensures Connected(WithoutLinks(g, dropped), a, b) <==> Connected(SwitchPairs(links - dropped), a.sw, b.sw)
  {
    if Connected(WithoutLinks(g, dropped), a, b) {
      var w :| IsWalk(WithoutLinks(g, dropped), w, a, b);
      PortWalkToSwitchWalk(links, g, dropped, w, a, b);
    }
    if Connected(SwitchPairs(links - dropped), a.sw, b.sw) {
      var w :| IsWalk(SwitchPairs(links - dropped), w, a.sw, b.sw);
      SwitchWalkToPortWalk(links, g, dropped, w, a, b);
    }
  }

  /** A link is redundant between switches exactly when its two ports stay connected without it. */
  lemma RedundantInPortGraph(links: set<Link>, g: PortMap, l: Link)
    requires External(links) && OneWay(links) && IsPortGraph(links, g) && l in links
    ensures Redundant(links, l) <==> Connected(EdgesOf(g) - {l, (l.1, l.0)}, l.0, l.1)
  {
    assert l.0 in EndPorts(links) && l.1 in EndPorts(links);
    assert WithoutLinks(g, {l}) == EdgesOf(g) - {l, (l.1, l.0)};
    ContractionKeepsConnectivity(links, g, {l}, l.0, l.1);
  }

  /** The port graph falls into as many components as the switch graph. */
  lemma SameComponentCount(links: set<Link>, g: PortMap)
    requires External(links) && OneWay(links) && IsPortGraph(links, g)
    ensures |Components(g.Keys, EdgesOf(g))| == |Components(Switches(links), SwitchPairs(links))|
  {
    var switches, pairs := Switches(links), SwitchPairs(links);
    var whole := Components(switches, pairs);
    var f := (c: set<string>) => set p | p in g.Keys && p.sw in c;
    forall c, d | c in whole && d in whole && f(c) == f(d) ensures c == d {
      var s :| s in switches && c == ComponentOf(switches, pairs, s);
      var p :| p in EndPorts(links) && p.sw == s;
      ConnectedRefl(pairs, s);
      assert p in f(c) && p in f(d);
      var t :| t in switches && d == ComponentOf(switches, pairs, t);
      SameComponent(switches, pairs, t, s);
    }
    ImageSize(whole, f);
    assert WithoutLinks(g, {}) == EdgesOf(g) && links - {} == links;
    forall p | p in g.Keys ensures f(ComponentOf(switches, pairs, p.sw)) == ComponentOf(g.Keys, EdgesOf(g), p) {
      forall q | q in g.Keys ensures Connected(EdgesOf(g), p, q) <==> Connected(pairs, p.sw, q.sw) {
        ContractionKeepsConnectivity(links, g, {}, p, q);
      }
    }
    forall c ensures c in Image(whole, f) <==> c in Components(g.Keys, EdgesOf(g)) {
      if c in Image(whole, f) {
        var d :| d in whole && c == f(d);
        var s :| s in switches && d == ComponentOf(switches, pairs, s);
        var p :| p in EndPorts(links) && p.sw == s;
        assert c == ComponentOf(g.Keys, EdgesOf(g), p);
      }
      if c in Components(g.Keys, EdgesOf(g)) {
        var p :| p in g.Keys && c == ComponentOf(g.Keys, EdgesOf(g), p);
        assert p.sw in switches;
        assert ComponentOf(switches, pairs, p.sw) in whole;
      }
    }
    assert Image(whole, f) == Components(g.Keys, EdgesOf(g));
  }
}
