/** Building the graph of switch ports in place: the links first, then all pairs of ports of each switch. */
module PortGraph {
  import opened Collections
  import opened Graphs
  import opened Ports
  import opened DfsForest
  import opened SwitchLinks

  ghost predicate Edge(g: PortMap, u: Port, v: Port) {
    u in g && v in g[u]
  }

  ghost predicate SamePair<T>(u: T, v: T, p: T, q: T) {
    (u == p && v == q) || (u == q && v == p)
  }

  /** Two ports of one switch, taken from a list of port names at positions a < b with (a, b) before (i, j). */
  ghost predicate Bridged(sw: string, ports: seq<string>, i: nat, j: nat, u: Port, v: Port) {
    exists a: nat, b: nat {:trigger ports[a], ports[b]} ::
      a < b < |ports| && (a < i || (a == i && b < j)) && SamePair(u, v, Port(sw, ports[a]), Port(sw, ports[b]))
  }

  lemma BridgedNext(sw: string, ports: seq<string>, i: nat, j: nat, u: Port, v: Port)
    requires i < j < |ports|
    ensures Bridged(sw, ports, i, j + 1, u, v)
            <==> Bridged(sw, ports, i, j, u, v) || SamePair(u, v, Port(sw, ports[i]), Port(sw, ports[j]))
  {
  }

  /** For a list without repetition, all pairs are all pairs of different ports. */
  lemma AllBridged(sw: string, ports: seq<string>, u: Port, v: Port)
    requires Distinct(ports)
    ensures Bridged(sw, ports, |ports|, 0, u, v)
            <==> u.sw == sw && v.sw == sw && u.port in ports && v.port in ports && u != v
  {
    if u.sw == sw && v.sw == sw && u.port in ports && v.port in ports && u != v {
      var a: nat :| a < |ports| && ports[a] == u.port;
      var b: nat :| b < |ports| && ports[b] == v.port;
      assert u == Port(sw, ports[a]) && v == Port(sw, ports[b]);
      assert SamePair(u, v, Port(sw, ports[b]), Port(sw, ports[a]));
    }
  }

  /** Each switch is mapped to the list of its ports, without repetition. */
  ghost predicate Groups(ports: set<Port>, swPorts: map<string, seq<string>>) {
    && (forall sw :: sw in swPorts ==> Distinct(swPorts[sw]))
    && (forall p: Port :: p in ports <==> p.sw in swPorts && p.port in swPorts[p.sw])
  }

  /** Two different ports of one of these switches. */
  ghost predicate SameSwitch(ports: set<Port>, switches: set<string>, u: Port, v: Port) {
    u in ports && v in ports && u != v && u.sw == v.sw && u.sw in switches
  }

  class Builder {
    var graph: PortMap

    constructor ()
      ensures graph == map[]
    {
      graph := map[];
    }

    method AddEdge(u: Port, v: Port)
      modifies this
      ensures graph.Keys == old(graph.Keys) + {u, v}
      ensures forall x, y :: Edge(graph, x, y) <==> old(Edge(graph, x, y)) || SamePair(x, y, u, v)
    {
      if u !in graph { graph := graph[u := {}]; }
      if v !in graph { graph := graph[v := {}]; }
      graph := graph[u := graph[u] + {v}];
      graph := graph[v := graph[v] + {u}];
    }

    method AddLinks(links: set<Link>)
      requires graph == map[]
      modifies this
      ensures graph.Keys == EndPorts(links)
      ensures forall u, v :: Edge(graph, u, v) <==> Adjacent(links, u, v)
    {
      var todo := links;
      ghost var done := {};
      while todo != {}
        invariant todo <= links && done == links - todo
        invariant graph.Keys == EndPorts(done)
        invariant forall u, v :: Edge(graph, u, v) <==> Adjacent(done, u, v)
        decreases todo
      {
        var l :| l in todo;
        AddEdge(l.0, l.1);
        todo, done := todo - {l}, done + {l};
      }
    }

    method GroupPorts() returns (swPorts: map<string, seq<string>>)
      ensures Groups(graph.Keys, swPorts)
    {
      swPorts := map[];
      var todo := graph.Keys;
      ghost var done := {};
      while todo != {}
        invariant todo <= graph.Keys && done == graph.Keys - todo
        invariant Groups(done, swPorts)
        decreases todo
      {
        var p :| p in todo;
        if p.sw !in swPorts { swPorts := swPorts[p.sw := []]; }
        assert p.port !in swPorts[p.sw] by { assert Port(p.sw, p.port) == p && p !in done; }
        swPorts := swPorts[p.sw := swPorts[p.sw] + [p.port]];
        todo, done := todo - {p}, done + {p};
        forall q: Port ensures q in done <==> q.sw in swPorts && q.port in swPorts[q.sw] {
          assert Port(q.sw, q.port) == q;
        }
      }
    }

    /** The two inner loops: every pair of ports of one switch becomes an edge. */
    method BridgePorts(sw: string, ports: seq<string>)
      requires forall p :: p in ports ==> Port(sw, p) in graph
      modifies this
      ensures graph.Keys == old(graph.Keys)
      ensures forall u, v :: Edge(graph, u, v) <==> old(Edge(graph, u, v)) || Bridged(sw, ports, |ports|, 0, u, v)
    {
      for i := 0 to |ports|
        invariant graph.Keys == old(graph.Keys)
        invariant forall u, v :: Edge(graph, u, v) <==> old(Edge(graph, u, v)) || Bridged(sw, ports, i, 0, u, v)
      {
        for j := i + 1 to |ports|
          invariant graph.Keys == old(graph.Keys)
          invariant forall u, v :: Edge(graph, u, v) <==> old(Edge(graph, u, v)) || Bridged(sw, ports, i, j, u, v)
        {
          AddEdge(Port(sw, ports[i]), Port(sw, ports[j]));
          forall u, v ensures Edge(graph, u, v) <==> old(Edge(graph, u, v)) || Bridged(sw, ports, i, j + 1, u, v) {
            BridgedNext(sw, ports, i, j, u, v);
          }
        }
      }
    }

    /** The edge relation when the links and the cliques of the switches in done have been added. */
    ghost predicate Built(links: set<Link>, done: set<string>)
      reads this
    {
      && graph.Keys == EndPorts(links)
      && forall u, v :: Edge(graph, u, v) <==> Adjacent(links, u, v) || SameSwitch(graph.Keys, done, u, v)
    }

    method AddCliques(links: set<Link>, swPorts: map<string, seq<string>>)
      requires Built(links, {}) && Groups(graph.Keys, swPorts)
      modifies this
      ensures Built(links, swPorts.Keys)
    {
      var todo := swPorts.Keys;
      ghost var done := {};
      while todo != {}
        invariant todo <= swPorts.Keys && done == swPorts.Keys - todo
        invariant Built(links, done) && graph.Keys == old(graph.Keys)
        decreases todo
      {
        var sw :| sw in todo;
        var ports := swPorts[sw];
        ghost var g := graph;
        if |ports| >= 2 {
          forall p | p in ports ensures Port(sw, p) in graph {
            assert Port(sw, p).sw in swPorts;
          }
          BridgePorts(sw, ports);
        }
        todo, done := todo - {sw}, done + {sw};
        forall u, v ensures Edge(graph, u, v) <==> Adjacent(links, u, v) || SameSwitch(graph.Keys, done, u, v) {
          AllBridged(sw, ports, u, v);
          assert Edge(g, u, v) <==> Adjacent(links, u, v) || SameSwitch(g.Keys, done - {sw}, u, v);
        }
      }
    }

    /**
     Whatever the order of links, switches and ports, the result is the port graph of the links, and it is
     undirected.
     */
    method Build(links: set<Link>)
      requires graph == map[] && External(links)
      modifies this
      ensures IsPortGraph(links, graph) && Undirected(graph)
    {
      AddLinks(links);
      forall u, v | Adjacent(links, u, v) ensures u in graph && v in graph {
        assert Edge(graph, u, v) && Edge(graph, v, u);
      }
      var swPorts := GroupPorts();
      AddCliques(links, swPorts);
      forall u, v | u in graph
        ensures v in graph[u] <==> Adjacent(links, u, v) || (v in graph && u != v && u.sw == v.sw)
      {
        assert v in graph[u] <==> Edge(graph, u, v);
      }
      PortGraphUndirected(links, graph);
    }
  }
}
