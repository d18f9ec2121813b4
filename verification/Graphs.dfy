/** Undirected graphs given as sets of pairs, walks in them, and connected components. */
module Graphs {

  /** A pair may be followed in either direction. */
  ghost predicate Adjacent<V>(edges: set<(V, V)>, a: V, b: V) {
    (a, b) in edges || (b, a) in edges
  }

  ghost predicate IsWalk<V>(edges: set<(V, V)>, w: seq<V>, a: V, b: V) {
    && |w| > 0 && w[0] == a && w[|w| - 1] == b
    && forall i :: 0 <= i < |w| - 1 ==> Adjacent(edges, w[i], w[i + 1])
  }

  ghost predicate Connected<V(!new)>(edges: set<(V, V)>, a: V, b: V) {
    exists w :: IsWalk(edges, w, a, b)
  }

  // ----- connectivity is an equivalence, generated by the edges

  lemma ConnectedRefl<V(!new)>(edges: set<(V, V)>, a: V)
    ensures Connected(edges, a, a)
  {
    assert IsWalk(edges, [a], a, a);
  }

  lemma ConnectedStep<V(!new)>(edges: set<(V, V)>, a: V, b: V)
    requires Adjacent(edges, a, b)
    ensures Connected(edges, a, b)
  {
    assert IsWalk(edges, [a, b], a, b);
  }

  lemma ConnectedTrans<V(!new)>(edges: set<(V, V)>, a: V, b: V, c: V)
    requires Connected(edges, a, b) && Connected(edges, b, c)
    ensures Connected(edges, a, c)
  {
    var v :| IsWalk(edges, v, a, b);
    var w :| IsWalk(edges, w, b, c);
    assert IsWalk(edges, v + w[1..], a, c);
  }

  lemma ConnectedSym<V(!new)>(edges: set<(V, V)>, a: V, b: V)
    requires Connected(edges, a, b)
    ensures Connected(edges, b, a)
  {
    var w :| IsWalk(edges, w, a, b);
    var r := seq(|w|, i requires 0 <= i < |w| => w[|w| - 1 - i]);
    forall i | 0 <= i < |r| - 1 ensures Adjacent(edges, r[i], r[i + 1]) {
      assert Adjacent(edges, w[|w| - 2 - i], w[|w| - 2 - i + 1]);
    }
    assert IsWalk(edges, r, b, a);
  }

  lemma ConnectedMono<V(!new)>(edges: set<(V, V)>, more: set<(V, V)>, a: V, b: V)
    requires edges <= more && Connected(edges, a, b)
    ensures Connected(more, a, b)
  {
    var w :| IsWalk(edges, w, a, b);
    assert IsWalk(more, w, a, b);
  }

  /** A walk that leaves a set crosses its border somewhere. */
  lemma BorderCrossing<V(!new)>(edges: set<(V, V)>, inside: set<V>, a: V, b: V) returns (x: V, y: V)
    requires Connected(edges, a, b) && a in inside && b !in inside
    ensures Adjacent(edges, x, y) && x in inside && y !in inside
  {
    var w :| IsWalk(edges, w, a, b);
    var i := 0;
    while w[i + 1] in inside
      invariant 0 <= i < |w| - 1 && w[i] in inside
      decreases |w| - i
    {
      i := i + 1;
    }
    x, y := w[i], w[i + 1];
  }

  /** Either a walk avoids the pair e, or it can be cut at e: both ends reach an end of e without it. */
  lemma {:induction false} CutAtEdge<V(!new)>(edges: set<(V, V)>, e: (V, V), w: seq<V>, a: V, b: V)
    requires IsWalk(edges, w, a, b)
    ensures || Connected(edges - {e}, a, b)
            || (Connected(edges - {e}, a, e.0) && Connected(edges - {e}, e.1, b))
            || (Connected(edges - {e}, a, e.1) && Connected(edges - {e}, e.0, b))
    decreases |w|
  {
    var rest := edges - {e};
    if |w| == 1 {
      ConnectedRefl(rest, a);
    } else {
      var c := w[1];
      assert IsWalk(edges, w[1..], c, b) by {
        forall i | 0 <= i < |w[1..]| - 1 ensures Adjacent(edges, w[1..][i], w[1..][i + 1]) {
          assert Adjacent(edges, w[i + 1], w[i + 1 + 1]);
        }
      }
      CutAtEdge(edges, e, w[1..], c, b);
      assert Adjacent(edges, w[0], w[0 + 1]);
      ConnectedRefl(rest, e.0);
      ConnectedRefl(rest, e.1);
      if Adjacent(rest, a, c) {
        ConnectedStep(rest, a, c);
        if Connected(rest, c, b) {
          ConnectedTrans(rest, a, c, b);
        } else if Connected(rest, c, e.0) && Connected(rest, e.1, b) {
          ConnectedTrans(rest, a, c, e.0);
        } else {
          ConnectedTrans(rest, a, c, e.1);
        }
      }
    }
  }

  // ----- connected components of the vertices

  ghost function ComponentOf<V(!new)>(vertices: set<V>, edges: set<(V, V)>, a: V): (component: set<V>) {
    set b | b in vertices && Connected(edges, a, b)
  }

  ghost function Components<V(!new)>(vertices: set<V>, edges: set<(V, V)>): (components: set<set<V>>) {
    set a | a in vertices :: ComponentOf(vertices, edges, a)
  }

  lemma SameComponent<V(!new)>(vertices: set<V>, edges: set<(V, V)>, a: V, b: V)
    requires a in vertices && b in vertices
    ensures (ComponentOf(vertices, edges, a) == ComponentOf(vertices, edges, b)) <==> Connected(edges, a, b)
  {
    ConnectedRefl(edges, b);
    if Connected(edges, a, b) {
      ConnectedSym(edges, a, b);
      forall c | c in vertices ensures Connected(edges, a, c) <==> Connected(edges, b, c) {
        if Connected(edges, b, c) { ConnectedTrans(edges, a, b, c); }
        if Connected(edges, a, c) { ConnectedTrans(edges, b, a, c); }
      }
    } else {
      assert b in ComponentOf(vertices, edges, b);
    }
  }

  // ----- counting

  ghost predicate InjectiveOn<A(!new), B>(xs: set<A>, f: A -> B) {
    forall x, y :: x in xs && y in xs && f(x) == f(y) ==> x == y
  }

  ghost function Image<A, B>(xs: set<A>, f: A -> B): (image: set<B>) {
    set x | x in xs :: f(x)
  }

  lemma {:induction false} ImageSize<A(!new), B>(xs: set<A>, f: A -> B)
    requires InjectiveOn(xs, f)
    ensures |Image(xs, f)| == |xs|
    decreases xs
  {
    if xs == {} {
      assert Image(xs, f) == {};
    } else {
      var x :| x in xs;
      ImageSize(xs - {x}, f);
      assert f(x) !in Image(xs - {x}, f);
      assert Image(xs, f) == Image(xs - {x}, f) + {f(x)};
    }
  }

  /** Joining two vertices leaves the components alone if they were connected, and merges two of them if not. */
  lemma AddEdge<V(!new)>(vertices: set<V>, edges: set<(V, V)>, e: (V, V))
    requires e.0 in vertices && e.1 in vertices
    ensures var before, after := Components(vertices, edges), Components(vertices, edges + {e});
            if Connected(edges, e.0, e.1) then after == before else |after| == |before| - 1
  {
    var before, after := Components(vertices, edges), Components(vertices, edges + {e});
    var c0, c1 := ComponentOf(vertices, edges, e.0), ComponentOf(vertices, edges, e.1);
    SameComponent(vertices, edges, e.0, e.1);
    if Connected(edges, e.0, e.1) {
      forall a | a in vertices ensures ComponentOf(vertices, edges + {e}, a) == ComponentOf(vertices, edges, a) {
        AddEdgeComponent(vertices, edges, e, a);
        SameComponent(vertices, edges, a, e.0);
        SameComponent(vertices, edges, a, e.1);
      }
      SameImage(vertices, edges, edges + {e});
    } else {
      var merged := c0 + c1;
      ConnectedRefl(edges, e.0);
      ConnectedRefl(edges, e.1);
      forall c ensures c in after <==> c in before - {c0, c1} + {merged} {
        if c in after {
          var a :| a in vertices && c == ComponentOf(vertices, edges + {e}, a);
          AddEdgeComponent(vertices, edges, e, a);
          SameComponent(vertices, edges, a, e.0);
          SameComponent(vertices, edges, a, e.1);
          assert ComponentOf(vertices, edges, a) in before;
        }
        if c in before - {c0, c1} {
          var a :| a in vertices && c == ComponentOf(vertices, edges, a);
          AddEdgeComponent(vertices, edges, e, a);
          SameComponent(vertices, edges, a, e.0);
          SameComponent(vertices, edges, a, e.1);
          assert ComponentOf(vertices, edges + {e}, a) in after;
        }
        if c == merged {
          AddEdgeComponent(vertices, edges, e, e.0);
          assert ComponentOf(vertices, edges + {e}, e.0) in after;
        }
      }
      assert merged !in before by {
        if merged in before {
          var a :| a in vertices && merged == ComponentOf(vertices, edges, a);
          assert e.0 in merged && e.1 in merged;
          ConnectedSym(edges, a, e.0);
          ConnectedTrans(edges, e.0, a, e.1);
        }
      }
      assert after == before - {c0, c1} + {merged};
      assert {c0, c1} <= before && |{c0, c1}| == 2;
      assert |before - {c0, c1}| == |before| - |{c0, c1}|;
    }
  }

  lemma SameImage<V(!new)>(vertices: set<V>, edges: set<(V, V)>, edges': set<(V, V)>)
    requires forall a :: a in vertices ==> ComponentOf(vertices, edges, a) == ComponentOf(vertices, edges', a)
    ensures Components(vertices, edges) == Components(vertices, edges')
  {
  }

  /** What one added edge does to the component of one vertex. */
  lemma AddEdgeComponent<V(!new)>(vertices: set<V>, edges: set<(V, V)>, e: (V, V), a: V)
    requires a in vertices && e.0 in vertices && e.1 in vertices
    ensures ComponentOf(vertices, edges + {e}, a)
            == if Connected(edges, a, e.0) || Connected(edges, a, e.1)
               then ComponentOf(vertices, edges, e.0) + ComponentOf(vertices, edges, e.1)
               else ComponentOf(vertices, edges, a)
  {
    var more := edges + {e};
    var joined := Connected(edges, a, e.0) || Connected(edges, a, e.1);
    forall b | b in vertices
      ensures Connected(more, a, b)
              <==> if joined then Connected(edges, e.0, b) || Connected(edges, e.1, b) else Connected(edges, a, b)
    {
      AddEdgeConnected(edges, e, a, b);
    }
  }

  lemma AddEdgeConnected<V(!new)>(edges: set<(V, V)>, e: (V, V), a: V, b: V)
    ensures Connected(edges + {e}, a, b)
            <==> if Connected(edges, a, e.0) || Connected(edges, a, e.1)
                 then Connected(edges, e.0, b) || Connected(edges, e.1, b)
                 else Connected(edges, a, b)
  {
    var more := edges + {e};
    var joined := Connected(edges, a, e.0) || Connected(edges, a, e.1);
    ConnectedStep(more, e.0, e.1);
    ConnectedStep(more, e.1, e.0);
    if Connected(more, a, b) {
      var w :| IsWalk(more, w, a, b);
      CutAtEdge(more, e, w, a, b);
      Lift(more - {e}, edges, a, b);
      Lift(more - {e}, edges, a, e.0);
      Lift(more - {e}, edges, a, e.1);
      Lift(more - {e}, edges, e.0, b);
      Lift(more - {e}, edges, e.1, b);
      if joined && Connected(edges, a, b) {
        if Connected(edges, a, e.0) {
          ConnectedSym(edges, a, e.0);
          ConnectedTrans(edges, e.0, a, b);
        } else {
          ConnectedSym(edges, a, e.1);
          ConnectedTrans(edges, e.1, a, b);
        }
      }
    }
    Lift(edges, more, a, b);
    Lift(edges, more, a, e.0);
    Lift(edges, more, a, e.1);
    Lift(edges, more, e.0, b);
    Lift(edges, more, e.1, b);
    if joined && (Connected(edges, e.0, b) || Connected(edges, e.1, b)) {
      var near := if Connected(edges, a, e.0) then e.0 else e.1;
      var far := if Connected(edges, e.0, b) then e.0 else e.1;
      if near == far {
        ConnectedTrans(more, a, near, b);
      } else {
        ConnectedTrans(more, a, near, far);
        ConnectedTrans(more, a, far, b);
      }
    }
  }

  lemma Lift<V(!new)>(edges: set<(V, V)>, more: set<(V, V)>, a: V, b: V)
    requires edges <= more
    ensures Connected(edges, a, b) ==> Connected(more, a, b)
  {
    if Connected(edges, a, b) { ConnectedMono(edges, more, a, b); }
  }

  /** Without edges every vertex is a component of its own. */
  lemma NoEdges<V(!new)>(vertices: set<V>)
    ensures |Components<V>(vertices, {})| == |vertices|
  {
    forall a, b | a in vertices && b in vertices && ComponentOf(vertices, {}, a) == ComponentOf(vertices, {}, b)
      ensures a == b
    {
      SameComponent(vertices, {}, a, b);
      var w :| IsWalk({}, w, a, b);
      assert |w| > 1 ==> Adjacent({}, w[0], w[0 + 1]);
    }
    var f := (a: V) => ComponentOf(vertices, {}, a);
    ImageSize(vertices, f);
    assert Components<V>(vertices, {}) == Image(vertices, f);
  }
}
