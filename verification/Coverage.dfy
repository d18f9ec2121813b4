/**
 Which external links the reported cycles pass through: exactly the ones whose two ends stay connected without
 them. The search may have taken ports and neighbours in any order.
 */
module Coverage {
  import opened Graphs
  import opened Ports
  import opened DfsForest
  import opened CycleSearch

  /** The link between p and q is one step of the closed walk c, in either direction. */
  ghost predicate PassesThrough(c: seq<Port>, p: Port, q: Port) {
    exists k: nat {:trigger Next(k, |c|)} :: k < |c| && {c[k], c[Next(k, |c|)]} == {p, q}
  }

  ghost function Without(g: PortMap, p: Port, q: Port): (edges: set<(Port, Port)>) {
    EdgesOf(g) - {(p, q), (q, p)}
  }

  /** Another step of a simple cycle uses another edge. */
  lemma OtherStepAvoids(g: PortMap, c: seq<Port>, k: nat, j: nat)
    requires IsSimpleCycle(g, c) && k < |c| && j < |c| && j != k
    ensures Adjacent(Without(g, c[k], c[Next(k, |c|)]), c[j], c[Next(j, |c|)])
  {
    var n := |c|;
    assert c[j] != c[k];
    assert c[j] == c[Next(k, n)] ==> j == Next(k, n);
    assert c[Next(j, n)] == c[k] ==> Next(j, n) == k;
    assert (c[j], c[Next(j, n)]) in EdgesOf(g);
  }

  /** Going round a simple cycle the other way joins the two ends of any one of its steps. */
  lemma CycleBypasses(g: PortMap, c: seq<Port>, k: nat)
    requires IsSimpleCycle(g, c) && k < |c|
    ensures Connected(Without(g, c[k], c[Next(k, |c|)]), c[Next(k, |c|)], c[k])
  {
    var n := |c|;
    var p, q := c[k], c[Next(k, n)];
    var w := c[k + 1..] + c[..k + 1];
    forall i | 0 <= i < |w| - 1 ensures Adjacent(Without(g, p, q), w[i], w[i + 1]) {
      var j := if k + 1 + i < n then k + 1 + i else k + 1 + i - n;
      assert w[i] == c[j] && w[i + 1] == c[Next(j, n)];
      OtherStepAvoids(g, c, k, j);
    }
    assert IsWalk(Without(g, p, q), w, q, p);
  }

  /** A back edge between two switches is on the cycle it closes itself. */
  lemma BackEdgeCovered(g: PortMap, tree: Paths, met: set<(Port, Port)>, cycles: seq<seq<Port>>, w: Port, x: Port)
    requires Searched(g, tree, met) && Reports(tree, met, cycles)
    requires IsBackEdge(g, tree, w, x) && w.sw != x.sw
    ensures exists c :: c in cycles && PassesThrough(c, w, x)
  {
    assert Finished(g, tree, met, w);
    assert Handled(g, tree, met, w, x);
    BackEdgeCloses(g, tree, w, x);
    var c := Fundamental(tree, w, x);
    assert Next(|c| - 1, |c|) == 0;
    assert Mentions(tree, (w, x), cycles);
  }

  /** The step from u down to v is on the cycle closed by any back edge from v or below to u or above. */
  lemma TreeEdgeCovered(g: PortMap, tree: Paths, met: set<(Port, Port)>, cycles: seq<seq<Port>>,
                        u: Port, v: Port, x: Port, y: Port)
    requires Searched(g, tree, met) && Reports(tree, met, cycles)
    requires v in g && IsParent(tree, v, u) && u.sw != v.sw
    requires IsBackEdge(g, tree, x, y) && v in tree[x] && v !in tree[y]
    ensures exists c :: c in cycles && PassesThrough(c, u, v)
  {
    assert Finished(g, tree, met, x);
    assert Handled(g, tree, met, x, y);
    BackEdgeCloses(g, tree, x, y);
    AncestorPosition(g, tree, x, y);
    AncestorPosition(g, tree, x, v);
    var c := Fundamental(tree, x, y);
    AncestorsCompare(g, tree, x, v, y);
    var k := |tree[v]| - 1 - |tree[y]|;
    assert c[k] == tree[v][|tree[v]| - 2] == u && c[k + 1] == v;
    assert Next(k, |c|) == k + 1;
    assert Mentions(tree, (x, y), cycles);
  }

  /** An external edge going down the tree that can be bypassed is on a reported cycle. */
  lemma DownEdgeCovered(g: PortMap, tree: Paths, met: set<(Port, Port)>, cycles: seq<seq<Port>>, u: Port, v: Port)
    requires Searched(g, tree, met) && Reports(tree, met, cycles)
    requires v in g && u in g[v] && u in tree[v] && u.sw != v.sw
    requires Connected(Without(g, u, v), v, u)
    ensures exists c :: c in cycles && PassesThrough(c, u, v)
  {
    AncestorPosition(g, tree, v, u);
    if !IsParent(tree, v, u) {
      BackEdgeCovered(g, tree, met, cycles, v, u);
      var c :| c in cycles && PassesThrough(c, v, u);
      assert {v, u} == {u, v};
      assert PassesThrough(c, u, v);
    } else {
      var below := set z | z in g && v in tree[z];
      assert HasTreePath(g, tree, v);
      assert u !in below by {
        if v in tree[u] { AncestorPosition(g, tree, u, v); }
      }
      var x, y := BorderCrossing(Without(g, u, v), below, v, u);
      assert y in g[x] && (x, y) != (v, u);
      BorderIsBackEdge(g, tree, met, u, v, x, y);
      TreeEdgeCovered(g, tree, met, cycles, u, v, x, y);
    }
  }

  /** Apart from the tree edge into v, only back edges leave the subtree of v. */
  lemma BorderIsBackEdge(g: PortMap, tree: Paths, met: set<(Port, Port)>, u: Port, v: Port, x: Port, y: Port)
    requires Searched(g, tree, met) && v in g && IsParent(tree, v, u)
    requires x in g && y in g[x] && v in tree[x] && v !in tree[y] && (x, y) != (v, u)
    ensures IsBackEdge(g, tree, x, y)
  {
    assert Finished(g, tree, met, x);
    assert Handled(g, tree, met, x, y);
    AncestorPosition(g, tree, x, v);
    assert x !in tree[y] by {
      if x in tree[y] { AncestorPosition(g, tree, y, x); }
    }
    AncestorPosition(g, tree, x, y);
    AncestorsCompare(g, tree, x, v, y);
    assert HasTreePath(g, tree, x) && HasTreePath(g, tree, v);
  }

  /** The ends of a step of a simple cycle stay connected without it. */
  lemma StepIsBypassed(g: PortMap, c: seq<Port>, p: Port, q: Port)
    requires IsSimpleCycle(g, c) && PassesThrough(c, p, q)
    ensures Connected(Without(g, p, q), p, q)
  {
    var k: nat :| k < |c| && {c[k], c[Next(k, |c|)]} == {p, q};
    CycleBypasses(g, c, k);
    assert c[k] in {p, q} && c[Next(k, |c|)] in {p, q};
    assert p in {c[k], c[Next(k, |c|)]} && q in {c[k], c[Next(k, |c|)]};
    assert Without(g, p, q) == Without(g, q, p);
    if c[k] == p { ConnectedSym(Without(g, p, q), q, p); }
  }

  lemma PassesThroughSym(c: seq<Port>, p: Port, q: Port)
    ensures PassesThrough(c, p, q) <==> PassesThrough(c, q, p)
  {
    assert {p, q} == {q, p};
  }

  /** The other direction: an external link whose ends stay connected without it is on a reported cycle. */
  lemma BypassedIsReported(g: PortMap, tree: Paths, met: set<(Port, Port)>, cycles: seq<seq<Port>>, p: Port, q: Port)
    requires Searched(g, tree, met) && Reports(tree, met, cycles)
    requires p in g && q in g[p] && p.sw != q.sw && Connected(Without(g, p, q), p, q)
    ensures exists c :: c in cycles && PassesThrough(c, p, q)
  {
    assert Finished(g, tree, met, p);
    assert Handled(g, tree, met, p, q);
    if q in tree[p] {
      assert Without(g, p, q) == Without(g, q, p);
      DownEdgeCovered(g, tree, met, cycles, q, p);
      var c :| c in cycles && PassesThrough(c, q, p);
      PassesThroughSym(c, q, p);
    } else {
      ConnectedSym(Without(g, p, q), p, q);
      DownEdgeCovered(g, tree, met, cycles, p, q);
    }
  }

  /**
   The main result of the search: an external link of the port graph is on a reported cycle exactly when its two
   ends are connected without it.
   */
  lemma ReportedExactly(g: PortMap, tree: Paths, met: set<(Port, Port)>, cycles: seq<seq<Port>>, p: Port, q: Port)
    requires Searched(g, tree, met) && Reports(tree, met, cycles)
    requires p in g && q in g[p] && p.sw != q.sw
    ensures (exists c :: c in cycles && PassesThrough(c, p, q)) <==> Connected(Without(g, p, q), p, q)
  {
    if c :| c in cycles && PassesThrough(c, p, q) {
      assert Reported(tree, met, c);
      FundamentalIsSimple(g, tree, c[|c| - 1], c[0]);
      StepIsBypassed(g, c, p, q);
    }
    if Connected(Without(g, p, q), p, q) {
      BypassedIsReported(g, tree, met, cycles, p, q);
    }
  }

  /** Every link between two switches that lies on some simple cycle of the port graph lies on a reported one. */
  lemma SimpleCycleLinkReported(g: PortMap, tree: Paths, met: set<(Port, Port)>, cycles: seq<seq<Port>>, c: seq<Port>,
                                k: nat)
    requires Searched(g, tree, met) && Reports(tree, met, cycles)
    requires IsSimpleCycle(g, c) && k < |c| && c[k].sw != c[Next(k, |c|)].sw
    ensures exists d :: d in cycles && PassesThrough(d, c[k], c[Next(k, |c|)])
  {
    var p, q := c[k], c[Next(k, |c|)];
    CycleBypasses(g, c, k);
    ConnectedSym(Without(g, p, q), q, p);
    ReportedExactly(g, tree, met, cycles, p, q);
  }

  /**
   Every reported cycle is a simple cycle of the graph with a step between two switches; no two have the same ports.
   */
  lemma ReportedCyclesAreCycles(g: PortMap, tree: Paths, met: set<(Port, Port)>, cycles: seq<seq<Port>>)
    requires Searched(g, tree, met) && Reports(tree, met, cycles)
    ensures forall c :: c in cycles ==> IsSimpleCycle(g, c) && CrossesDevices(c)
    ensures forall i, j :: 0 <= i < j < |cycles| ==> multiset(cycles[i]) != multiset(cycles[j])
  {
    forall c | c in cycles ensures IsSimpleCycle(g, c) && CrossesDevices(c) {
      assert Reported(tree, met, c);
      FundamentalIsSimple(g, tree, c[|c| - 1], c[0]);
    }
    forall i, j | 0 <= i < j < |cycles| ensures multiset(cycles[i]) != multiset(cycles[j]) {
      var c, d := cycles[i], cycles[j];
      assert Differ(cycles, i, j);
      assert Reported(tree, met, c) && Reported(tree, met, d);
      if multiset(c) == multiset(d) {
        BackEdgeFromPorts(g, tree, c[|c| - 1], c[0], d[|d| - 1], d[0]);
      }
    }
  }
}
