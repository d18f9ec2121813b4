/**
 What a depth-first search leaves behind, as values: the tree path of every visited port, and the
 cycle candidates it met. Nothing here depends on the order in which ports were taken.
 */
module DfsForest {
  import opened Graphs
  import opened Ports

  type PortMap = map<Port, set<Port>>
  type Paths = map<Port, seq<Port>>

  /** The adjacency sets describe a simple undirected graph. */
  ghost predicate Undirected(g: PortMap) {
    && (forall u, v :: u in g && v in g[u] ==> v in g && u in g[v])
    && (forall u :: u in g ==> u !in g[u])
  }

  ghost function EdgesOf(g: PortMap): (edges: set<(Port, Port)>) {
    set u, v | u in g && v in g[u] :: (u, v)
  }

  // ----- tree paths

  /** The path of v is the path of its parent, extended by v along an edge; roots have no parent. */
  ghost predicate HasTreePath(g: PortMap, tree: Paths, v: Port)
    requires v in tree
  {
    var p := tree[v];
    && v in g && |p| > 0 && p[|p| - 1] == v
    && (|p| > 1 ==> p[|p| - 2] in tree && tree[p[|p| - 2]] == p[..|p| - 1] && p[|p| - 2] in g && v in g[p[|p| - 2]])
  }

  ghost predicate IsTree(g: PortMap, tree: Paths) {
    forall v {:trigger HasTreePath(g, tree, v)} :: v in tree ==> HasTreePath(g, tree, v)
  }

  /** The tree paths known earlier stay as they were. */
  ghost predicate Extends(tree: Paths, tree': Paths) {
    forall v :: v in tree ==> v in tree' && tree'[v] == tree[v]
  }

  /** Every prefix of a tree path is the tree path of its last port. */
  lemma {:induction false} PathPrefix(g: PortMap, tree: Paths, v: Port, i: nat)
    requires IsTree(g, tree) && v in tree && i < |tree[v]|
    ensures tree[v][i] in tree && tree[tree[v][i]] == tree[v][..i + 1]
    decreases |tree[v]|
  {
    var p := tree[v];
    assert HasTreePath(g, tree, v);
    if i == |p| - 1 {
      assert p[..i + 1] == p;
    } else {
      PathPrefix(g, tree, p[|p| - 2], i);
      assert p[..|p| - 1][..i + 1] == p[..i + 1];
    }
  }

  /** An ancestor of v stands in v's path at its own depth, and nowhere else. */
  lemma AncestorPosition(g: PortMap, tree: Paths, v: Port, x: Port)
    requires IsTree(g, tree) && v in tree && x in tree[v]
    ensures x in tree && 0 < |tree[x]| <= |tree[v]| && tree[x] == tree[v][..|tree[x]|]
    ensures tree[v][|tree[x]| - 1] == x
    ensures forall i :: 0 <= i < |tree[v]| && tree[v][i] == x ==> i == |tree[x]| - 1
  {
    forall i | 0 <= i < |tree[v]| && tree[v][i] == x ensures x in tree && tree[x] == tree[v][..i + 1] {
      PathPrefix(g, tree, v, i);
    }
  }

  /** Of two ancestors of x, the one at the smaller depth is an ancestor of the other. */
  lemma AncestorsCompare(g: PortMap, tree: Paths, x: Port, v: Port, y: Port)
    requires IsTree(g, tree) && x in tree && v in tree[x] && y in tree[x]
    ensures v in tree && y in tree && (v in tree[y] <==> |tree[v]| <= |tree[y]|)
  {
    AncestorPosition(g, tree, x, v);
    AncestorPosition(g, tree, x, y);
    if |tree[v]| <= |tree[y]| {
      assert tree[y][|tree[v]| - 1] == v;
    }
  }

  lemma PathNoDuplicates(g: PortMap, tree: Paths, v: Port, i: nat, j: nat)
    requires IsTree(g, tree) && v in tree && i < |tree[v]| && j < |tree[v]| && tree[v][i] == tree[v][j]
    ensures i == j
  {
    AncestorPosition(g, tree, v, tree[v][i]);
  }

  lemma PathAdjacent(g: PortMap, tree: Paths, v: Port, i: nat)
    requires IsTree(g, tree) && v in tree && i + 1 < |tree[v]|
    ensures tree[v][i] in g && tree[v][i + 1] in g[tree[v][i]]
  {
    PathPrefix(g, tree, v, i + 1);
    assert HasTreePath(g, tree, tree[v][i + 1]);
  }

  // ----- back edges and the cycles they close

  ghost predicate IsParent(tree: Paths, w: Port, x: Port)
    requires w in tree
  {
    |tree[w]| > 1 && tree[w][|tree[w]| - 2] == x
  }

  /** From w, the neighbour x is an ancestor other than the parent. */
  ghost predicate IsBackEdge(g: PortMap, tree: Paths, w: Port, x: Port) {
    && w in tree && w in g && x in g[w] && x in tree[w] && x in tree
    && !IsParent(tree, w, x)
  }

  /** The tree path from x down to w, which the back edge from w to x closes. */
  ghost function Fundamental(tree: Paths, w: Port, x: Port): (cycle: seq<Port>) {
    if w in tree && x in tree && 0 < |tree[x]| <= |tree[w]| then tree[w][|tree[x]| - 1..] else []
  }

  lemma BackEdgeCloses(g: PortMap, tree: Paths, w: Port, x: Port)
    requires Undirected(g) && IsTree(g, tree) && IsBackEdge(g, tree, w, x)
    ensures 0 < |tree[x]| && |tree[x]| + 2 <= |tree[w]|
    ensures var c := Fundamental(tree, w, x);
            |c| >= 3 && c[0] == x && c[|c| - 1] == w && c == tree[w][|tree[x]| - 1..]
  {
    AncestorPosition(g, tree, w, x);
    assert HasTreePath(g, tree, w);
  }

  /** The position after k in a closed walk of n ports. */
  function Next(k: nat, n: nat): (r: nat)
    requires k < n
    ensures r == (k + 1) % n && r < n
  {
    if k + 1 < n then k + 1 else 0
  }

  /** A cycle of the graph: at least three ports, all different, each wired or bridged to the next. */
  ghost predicate IsSimpleCycle(g: PortMap, c: seq<Port>) {
    && |c| >= 3
    && (forall i, j :: 0 <= i < j < |c| ==> c[i] != c[j])
    && (forall k: nat {:trigger Next(k, |c|)} :: k < |c| ==> c[k] in g && c[Next(k, |c|)] in g[c[k]])
  }

  lemma FundamentalIsSimple(g: PortMap, tree: Paths, w: Port, x: Port)
    requires Undirected(g) && IsTree(g, tree) && IsBackEdge(g, tree, w, x)
    ensures IsSimpleCycle(g, Fundamental(tree, w, x))
  {
    BackEdgeCloses(g, tree, w, x);
    var d, c := |tree[x]| - 1, Fundamental(tree, w, x);
    forall i, j | 0 <= i < j < |c| ensures c[i] != c[j] {
      if c[i] == c[j] { PathNoDuplicates(g, tree, w, d + i, d + j); }
    }
    forall k: nat | k < |c| ensures c[k] in g && c[Next(k, |c|)] in g[c[k]] {
      if k < |c| - 1 { PathAdjacent(g, tree, w, d + k); }
    }
  }

  /** Two back edges that close cycles with the same ports, in whatever order, are the same back edge. */
  lemma BackEdgeFromPorts(g: PortMap, tree: Paths, w: Port, x: Port, v: Port, y: Port)
    requires Undirected(g) && IsTree(g, tree) && IsBackEdge(g, tree, w, x) && IsBackEdge(g, tree, v, y)
    requires multiset(Fundamental(tree, w, x)) == multiset(Fundamental(tree, v, y))
    ensures w == v && x == y
  {
    var c, d := Fundamental(tree, w, x), Fundamental(tree, v, y);
    BackEdgeCloses(g, tree, w, x);
    BackEdgeCloses(g, tree, v, y);
    assert |c| == |multiset(c)| == |multiset(d)| == |d|;
    assert w in multiset(d) && v in multiset(c);
    AncestorPosition(g, tree, v, w);
    AncestorPosition(g, tree, w, v);
    assert tree[w] == tree[v];
  }

  // ----- the invariant of the search

  /** x is an ancestor or descendant of v, and the back edge from v to x, if there is one, has been met. */
  ghost predicate Handled(g: PortMap, tree: Paths, met: set<(Port, Port)>, v: Port, x: Port) {
    && v in tree && x in tree && (x in tree[v] || v in tree[x])
    && (IsBackEdge(g, tree, v, x) ==> (v, x) in met)
  }

  ghost predicate Finished(g: PortMap, tree: Paths, met: set<(Port, Port)>, v: Port) {
    v in g && forall x {:trigger Handled(g, tree, met, v, x)} :: x in g[v] ==> Handled(g, tree, met, v, x)
  }

  ghost predicate AllBackEdges(g: PortMap, tree: Paths, met: set<(Port, Port)>) {
    forall e :: e in met ==> IsBackEdge(g, tree, e.0, e.1)
  }

  lemma HandledStable(g: PortMap, tree: Paths, met: set<(Port, Port)>, tree': Paths, met': set<(Port, Port)>, v: Port,
                      x: Port)
    requires Handled(g, tree, met, v, x) && Extends(tree, tree') && met <= met'
    ensures Handled(g, tree', met', v, x)
  {
    if IsBackEdge(g, tree', v, x) {
      assert IsBackEdge(g, tree, v, x);
    }
  }

  lemma FinishedStable(g: PortMap, tree: Paths, met: set<(Port, Port)>, tree': Paths, met': set<(Port, Port)>, v: Port)
    requires Finished(g, tree, met, v) && Extends(tree, tree') && met <= met'
    ensures Finished(g, tree', met', v)
  {
    forall x | x in g[v] ensures Handled(g, tree', met', v, x) {
      HandledStable(g, tree, met, tree', met', v, x);
    }
  }

  lemma BackEdgesStable(g: PortMap, tree: Paths, met: set<(Port, Port)>, tree': Paths)
    requires AllBackEdges(g, tree, met) && Extends(tree, tree')
    ensures AllBackEdges(g, tree', met)
  {
    forall e | e in met ensures IsBackEdge(g, tree', e.0, e.1) {
      assert IsBackEdge(g, tree, e.0, e.1);
    }
  }

  /** What the search has established once every port is finished. */
  ghost predicate Searched(g: PortMap, tree: Paths, met: set<(Port, Port)>) {
    && Undirected(g) && IsTree(g, tree) && tree.Keys == g.Keys && AllBackEdges(g, tree, met)
    && forall v {:trigger Finished(g, tree, met, v)} :: v in g ==> Finished(g, tree, met, v)
  }
}
