/** Cables between switches, the LLDP rows that tell of them, and the links and loops found in those rows. */
module Cabling {
  import opened Graphs
  import opened Ports
  import opened SwitchLinks
  import opened Lldp

  /** The row tells of this cable, from one of its ends. */
  ghost predicate SaysCable(t: PortText, swMac: string, row: Row, c: Link) {
    Says(t, swMac, row, c.0, c.1) || Says(t, swMac, row, c.1, c.0)
  }

  /** Row b of switch number a tells of this cable. */
  ghost predicate RowSays(t: PortText, nbs: Neighbors, a: nat, b: nat, c: Link) {
    a < |nbs| && b < |nbs[a].1| && SaysCable(t, nbs[a].0, nbs[a].1[b], c)
  }

  /** Row b of switch number a tells of one of these cables. */
  ghost predicate RowDescribes(t: PortText, nbs: Neighbors, a: nat, b: nat, cables: set<Link>) {
    exists c :: c in cables && RowSays(t, nbs, a, b, c)
  }

  /** Every row tells of a cable, and every cable is told of, from one end or from both, as often as may be. */
  ghost predicate Describes(t: PortText, nbs: Neighbors, cables: set<Link>) {
    && (forall a: nat, b: nat {:trigger RowDescribes(t, nbs, a, b, cables)} ::
          a < |nbs| && b < |nbs[a].1| ==> RowDescribes(t, nbs, a, b, cables))
    && (forall c :: c in cables ==> exists a: nat, b: nat :: RowSays(t, nbs, a, b, c))
  }

  /** The two sets hold the same pairs of ports, whichever end comes first. */
  ghost predicate SamePairs(xs: set<Link>, ys: set<Link>) {
    && (forall x :: x in xs ==> x in ys || (x.1, x.0) in ys)
    && (forall y :: y in ys ==> y in xs || (y.1, y.0) in xs)
  }

  /** A row says one thing only. */
  lemma SaysOnce(t: PortText, swMac: string, row: Row, p: Port, q: Port, x: Port, y: Port)
    requires Says(t, swMac, row, p, q) && Says(t, swMac, row, x, y)
    ensures p == x && q == y
  {
    SaysRead(t, swMac, row, p, q);
    SaysRead(t, swMac, row, x, y);
  }

  /** A row that tells of a cable between two switches tells its link, and no self loop. */
  lemma CableRow(t: PortText, swMac: string, row: Row, c: Link)
    requires SaysCable(t, swMac, row, c) && c.0.sw != c.1.sw
    ensures RowTellsLink(t, swMac, row, c) || RowTellsLink(t, swMac, row, (c.1, c.0))
    ensures forall l :: RowTellsLink(t, swMac, row, l) ==> l == c || l == (c.1, c.0)
    ensures forall s :: !RowTellsLoop(t, swMac, row, s)
  {
    StringOrder(c.0.sw, c.1.sw);
    forall p, q | Says(t, swMac, row, p, q) ensures (p, q) == c || (p, q) == (c.1, c.0) {
      if Says(t, swMac, row, c.0, c.1) {
        SaysOnce(t, swMac, row, c.0, c.1, p, q);
      } else {
        SaysOnce(t, swMac, row, c.1, c.0, p, q);
      }
    }
  }

  /** A link that is told is a cable. */
  lemma ToldIsCable(t: PortText, nbs: Neighbors, cables: set<Link>, l: Link)
    requires External(cables) && Describes(t, nbs, cables) && LinkTold(t, nbs, l)
    ensures l in cables || (l.1, l.0) in cables
  {
    var a: nat, b: nat :| a < |nbs| && b < |nbs[a].1| && RowTellsLink(t, nbs[a].0, nbs[a].1[b], l);
    assert RowDescribes(t, nbs, a, b, cables);
    var c :| c in cables && RowSays(t, nbs, a, b, c);
    CableRow(t, nbs[a].0, nbs[a].1[b], c);
    assert c == (c.0, c.1);
  }

  /** A cable is told as a link. */
  lemma CableIsTold(t: PortText, nbs: Neighbors, cables: set<Link>, c: Link)
    requires External(cables) && Describes(t, nbs, cables) && c in cables
    ensures LinkTold(t, nbs, c) || LinkTold(t, nbs, (c.1, c.0))
  {
    var a: nat, b: nat :| RowSays(t, nbs, a, b, c);
    CableRow(t, nbs[a].0, nbs[a].1[b], c);
  }

  lemma NoLoopTold(t: PortText, nbs: Neighbors, cables: set<Link>, s: SelfLoop)
    requires External(cables) && Describes(t, nbs, cables)
    ensures !LoopTold(t, nbs, s)
  {
    forall a: nat, b: nat | a < |nbs| && b < |nbs[a].1| ensures !RowTellsLoop(t, nbs[a].0, nbs[a].1[b], s) {
      assert RowDescribes(t, nbs, a, b, cables);
      var c :| c in cables && RowSays(t, nbs, a, b, c);
      CableRow(t, nbs[a].0, nbs[a].1[b], c);
    }
  }

  /** The links found are the cables, each once however often it is reported, and there is no self loop. */
  lemma LinksAreCables(t: PortText, nbs: Neighbors, cables: set<Link>, links: set<Link>, selfLoops: set<SelfLoop>)
    requires External(cables) && OneWay(cables) && Describes(t, nbs, cables)
    requires forall l :: l in links <==> LinkTold(t, nbs, l)
    requires forall s :: s in selfLoops <==> LoopTold(t, nbs, s)
    ensures SamePairs(links, cables) && OneWay(links) && |links| == |cables| && selfLoops == {}
  {
    FoundLinksAreSorted(t, nbs, links);
    forall l | l in links ensures l in cables || (l.1, l.0) in cables { ToldIsCable(t, nbs, cables, l); }
    forall c | c in cables ensures c in links || (c.1, c.0) in links { CableIsTold(t, nbs, cables, c); }
    forall s ensures s !in selfLoops { NoLoopTold(t, nbs, cables, s); }
    SamePairsSize(links, cables);
  }

  lemma {:induction false} SamePairsSize(xs: set<Link>, ys: set<Link>)
    requires SamePairs(xs, ys) && OneWay(xs) && OneWay(ys)
    ensures |xs| == |ys|
    decreases |xs|
  {
    if xs == {} {
      assert ys == {};
    } else {
      var x :| x in xs;
      var y := if x in ys then x else (x.1, x.0);
      SamePairsSize(xs - {x}, ys - {y});
    }
  }

  lemma ConnectedByAdjacent(xs: set<(string, string)>, ys: set<(string, string)>, a: string, b: string)
    requires forall e :: e in xs ==> Adjacent(ys, e.0, e.1)
    ensures Connected(xs, a, b) ==> Connected(ys, a, b)
  {
    if w :| IsWalk(xs, w, a, b) {
      assert IsWalk(ys, w, a, b) by {
        forall i | 0 <= i < |w| - 1 ensures Adjacent(ys, w[i], w[i + 1]) { assert Adjacent(xs, w[i], w[i + 1]); }
      }
    }
  }

  /** Whether there is a loop does not depend on which end of a cable is named first. */
  lemma LoopTurned(xs: set<Link>, ys: set<Link>)
    requires SamePairs(xs, ys) && OneWay(xs) && OneWay(ys)
    ensures HasLoop(xs) ==> HasLoop(ys)
  {
    if l :| Redundant(xs, l) {
      var k := if l in ys then l else (l.1, l.0);
      var rest, others := SwitchPairs(xs - {l}), SwitchPairs(ys - {k});
      forall e | e in rest ensures Adjacent(others, e.0, e.1) {
        var m :| m in xs - {l} && e == (m.0.sw, m.1.sw);
        var n := if m in ys then m else (m.1, m.0);
        assert n in ys - {k};
      }
      ConnectedByAdjacent(rest, others, l.0.sw, l.1.sw);
      ConnectedSym(others, l.0.sw, l.1.sw);
      assert Redundant(ys, k);
    }
  }

  lemma SameLoops(xs: set<Link>, ys: set<Link>)
    requires SamePairs(xs, ys) && OneWay(xs) && OneWay(ys)
    ensures HasLoop(xs) <==> HasLoop(ys)
  {
    LoopTurned(xs, ys);
    LoopTurned(ys, xs);
  }

  /** A single cable closes no loop. */
  lemma OneCableNoLoop(c: Link)
    requires c.0.sw != c.1.sw
    ensures !HasLoop({c})
  {
    assert {c} - {c} == {};
    assert SwitchPairs({}) == {};
    if l :| Redundant({c}, l) {
      var w :| IsWalk(SwitchPairs({}), w, l.0.sw, l.1.sw);
      assert |w| > 1 ==> Adjacent(SwitchPairs({}), w[0], w[0 + 1]);
    }
  }

  /** One cable between two switches, reported from both ends by port and neighbour. */
  lemma OneCableDescribed(t: PortText, mac1: string, row1: Row, mac2: string, row2: Row, local: string, remote: string)
    requires Plain(row1, mac2, local, remote) && Plain(row2, mac1, remote, local)
    requires t.upper(mac1) != "" && t.upper(mac2) != "" && t.upper(mac1) != t.upper(mac2)
    ensures var c := (Port(t.upper(mac1), t.norm(local)), Port(t.upper(mac2), t.norm(remote)));
            && Describes(t, [(mac1, [row1]), (mac2, [row2])], {c})
            && External({c}) && OneWay({c}) && !HasLoop({c})
  {
    var p, q := Port(t.upper(mac1), t.norm(local)), Port(t.upper(mac2), t.norm(remote));
    var nbs := [(mac1, [row1]), (mac2, [row2])];
    PlainRowSays(t, mac1, row1, mac2, local, remote, p, q);
    PlainRowSays(t, mac2, row2, mac1, remote, local, q, p);
    OneCableNoLoop((p, q));
    assert RowSays(t, nbs, 0, 0, (p, q)) && RowSays(t, nbs, 1, 0, (p, q));
    forall a: nat, b: nat | a < |nbs| && b < |nbs[a].1| ensures RowDescribes(t, nbs, a, b, {(p, q)}) {
      assert (a == 0 || a == 1) && b == 0;
      assert (p, q) in {(p, q)};
    }
  }
}
