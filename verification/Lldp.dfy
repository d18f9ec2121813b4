/** From LLDP neighbour rows to the set of links between switches and the set of self loops. */
module Lldp {
  import opened Collections
  import opened PortNames
  import opened Ports
  import opened Strings
  import opened SwitchLinks

  /** The fields of a neighbour row that matter here; a missing key is None. */
  datatype Row = Row(neighborMac: Option<string>, chassisId: Option<string>, deviceId: Option<string>,
                     localPort: Option<string>, localPortId: Option<string>, standardPortIndex: Option<string>,
                     portId: Option<string>, remotePort: Option<string>, neighborPortId: Option<string>)

  /** The rows of every polled switch, in dictionary order. */
  type Neighbors = seq<(string, seq<Row>)>

  /** Python's str.upper, isspace and \d, taken as given, and the normalised name of a port. */
  datatype PortText = PortText(upper: string -> string, ws: Spaces, digit: char -> bool) {
    function norm(port: string): (name: string) {
      NormalizePort(ws, digit, port)
    }
  }

  type SelfLoop = (string, (string, string))

  /** What one row contributes. */
  datatype Finding = Nothing | OnSameSwitch(loop: SelfLoop) | Between(link: Link)

  function GetOr(o: Option<string>, default: string): (s: string) {
    if o.Some? then o.value else default
  }

  function NeighborMac(t: PortText, row: Row): (mac: string) {
    t.upper(GetOr(row.neighborMac, GetOr(row.chassisId, GetOr(row.deviceId, ""))))
  }

  function LocalPort(row: Row): (port: string) {
    var port := GetOr(row.localPort, GetOr(row.localPortId, ""));
    if port != "" then port
    else if row.standardPortIndex.Some? then row.standardPortIndex.value
    else GetOr(row.portId, "")
  }

  function RemotePort(row: Row): (port: string) {
    var port := GetOr(row.remotePort, GetOr(row.neighborPortId, ""));
    if port != "" then port else GetOr(row.portId, "")
  }

  function Classify(t: PortText, swMac: string, row: Row): (finding: Finding) {
    var sw, nb := t.upper(swMac), NeighborMac(t, row);
    var local, remote := t.norm(LocalPort(row)), t.norm(RemotePort(row));
    if nb == "" then Nothing
    else if sw == nb then OnSameSwitch((sw, Sorted2(local, remote)))
    else Between(SortedLink(Port(sw, local), Port(nb, remote)))
  }

  // ----- what a row says, field by field

  /** The first of these fields that the row has; empty when it has none of them. */
  ghost predicate FirstGiven(fields: seq<Option<string>>, s: string) {
    || (s == "" && forall k :: 0 <= k < |fields| ==> fields[k].None?)
    || (exists k :: 0 <= k < |fields| && fields[k] == Some(s) && forall j :: 0 <= j < k ==> fields[j].None?)
  }

  /** The first of the preferred fields or, when that is empty, the first of the others. */
  ghost predicate FirstText(preferred: seq<Option<string>>, others: seq<Option<string>>, s: string) {
    || (s != "" && FirstGiven(preferred, s))
    || (FirstGiven(preferred, "") && FirstGiven(others, s))
  }

  /** The row of this switch names this neighbour and these two ports. */
  ghost predicate Names(row: Row, mac: string, local: string, remote: string) {
    && FirstGiven([row.neighborMac, row.chassisId, row.deviceId], mac)
    && FirstText([row.localPort, row.localPortId], [row.standardPortIndex, row.portId], local)
    && FirstText([row.remotePort, row.neighborPortId], [row.portId], remote)
  }

  /** The row says that a cable runs from port p of its own switch to port q. */
  ghost predicate Says(t: PortText, swMac: string, row: Row, p: Port, q: Port) {
    exists mac, local, remote :: Names(row, mac, local, remote) && t.upper(mac) != ""
      && p == Port(t.upper(swMac), t.norm(local)) && q == Port(t.upper(mac), t.norm(remote))
  }

  ghost predicate RowTellsLink(t: PortText, swMac: string, row: Row, l: Link) {
    exists p, q :: Says(t, swMac, row, p, q) && p.sw != q.sw && (l == (p, q) || l == (q, p)) && StringLe(l.0.sw, l.1.sw)
  }

  ghost predicate RowTellsLoop(t: PortText, swMac: string, row: Row, s: SelfLoop) {
    exists p, q :: Says(t, swMac, row, p, q) && p.sw == q.sw == s.0
      && (s.1 == (p.port, q.port) || s.1 == (q.port, p.port)) && StringLe(s.1.0, s.1.1)
  }

  /** Some row of some switch says that this link is there. */
  ghost predicate LinkTold(t: PortText, nbs: Neighbors, l: Link) {
    exists a: nat, b: nat :: a < |nbs| && b < |nbs[a].1| && RowTellsLink(t, nbs[a].0, nbs[a].1[b], l)
  }

  ghost predicate LoopTold(t: PortText, nbs: Neighbors, s: SelfLoop) {
    exists a: nat, b: nat :: a < |nbs| && b < |nbs[a].1| && RowTellsLoop(t, nbs[a].0, nbs[a].1[b], s)
  }

  /** What the program reads from a row is what the row names. */
  lemma ReadAsNamed(t: PortText, row: Row, mac: string, local: string, remote: string)
    ensures Names(row, mac, local, remote) ==>
              t.upper(mac) == NeighborMac(t, row) && local == LocalPort(row) && remote == RemotePort(row)
    ensures exists m :: Names(row, m, LocalPort(row), RemotePort(row)) && t.upper(m) == NeighborMac(t, row)
  {
    var m := GetOr(row.neighborMac, GetOr(row.chassisId, GetOr(row.deviceId, "")));
    FirstOfThree(row.neighborMac, row.chassisId, row.deviceId, mac);
    FirstOfThree(row.neighborMac, row.chassisId, row.deviceId, m);
    TextRead(row.localPort, row.localPortId, row.standardPortIndex, row.portId, local);
    TextRead(row.localPort, row.localPortId, row.standardPortIndex, row.portId, LocalPort(row));
    TextRead(row.remotePort, row.neighborPortId, None, row.portId, remote);
    TextRead(row.remotePort, row.neighborPortId, None, row.portId, RemotePort(row));
    FirstOfOne(row.portId, remote);
    FirstOfOne(row.portId, RemotePort(row));
    FirstOfTwo(None, row.portId, remote);
    FirstOfTwo(None, row.portId, RemotePort(row));
    assert Names(row, m, LocalPort(row), RemotePort(row));
  }

  lemma FirstOfOne(f: Option<string>, s: string)
    ensures FirstGiven([f], s) <==> s == GetOr(f, "")
  {
    assert f.Some? ==> [f][0] == Some(f.value);
  }

  lemma FirstOfTwo(f: Option<string>, g: Option<string>, s: string)
    ensures FirstGiven([f, g], s) <==> s == GetOr(f, GetOr(g, ""))
  {
    var fields := [f, g];
    assert f.Some? ==> fields[0] == f;
    assert g.Some? ==> fields[1] == g;
  }

  lemma FirstOfThree(f: Option<string>, g: Option<string>, h: Option<string>, s: string)
    ensures FirstGiven([f, g, h], s) <==> s == GetOr(f, GetOr(g, GetOr(h, "")))
  {
    var fields := [f, g, h];
    assert f.Some? ==> fields[0] == f;
    assert g.Some? ==> fields[1] == g;
    assert h.Some? ==> fields[2] == h;
  }

  lemma TextRead(f: Option<string>, g: Option<string>, h: Option<string>, i: Option<string>, s: string)
    ensures FirstText([f, g], [h, i], s)
            <==> s == if GetOr(f, GetOr(g, "")) != "" then GetOr(f, GetOr(g, "")) else GetOr(h, GetOr(i, ""))
  {
    FirstOfTwo(f, g, s);
    FirstOfTwo(f, g, "");
    FirstOfTwo(h, i, s);
  }

  /** A row says one thing at most: what is read from it. */
  lemma SaysRead(t: PortText, swMac: string, row: Row, p: Port, q: Port)
    ensures Says(t, swMac, row, p, q)
            <==> NeighborMac(t, row) != "" && p == Port(t.upper(swMac), t.norm(LocalPort(row)))
                 && q == Port(NeighborMac(t, row), t.norm(RemotePort(row)))
  {
    if Says(t, swMac, row, p, q) {
      var mac, local, remote :| Names(row, mac, local, remote) && t.upper(mac) != ""
        && p == Port(t.upper(swMac), t.norm(local)) && q == Port(t.upper(mac), t.norm(remote));
      ReadAsNamed(t, row, mac, local, remote);
    } else {
      ReadAsNamed(t, row, "", "", "");
    }
  }

  /** What a row contributes is what it says, smaller end first. */
  lemma ClassifiedAsTold(t: PortText, swMac: string, row: Row)
    ensures forall l :: RowTellsLink(t, swMac, row, l) <==> Classify(t, swMac, row) == Between(l)
    ensures forall s :: RowTellsLoop(t, swMac, row, s) <==> Classify(t, swMac, row) == OnSameSwitch(s)
  {
    var p, q := Port(t.upper(swMac), t.norm(LocalPort(row))), Port(NeighborMac(t, row), t.norm(RemotePort(row)));
    forall x, y ensures Says(t, swMac, row, x, y) <==> NeighborMac(t, row) != "" && x == p && y == q {
      SaysRead(t, swMac, row, x, y);
    }
    StringOrder(p.sw, q.sw);
    StringOrder(p.port, q.port);
  }

  // ----- rows with all fields given

  /** The row gives its neighbour and both ports directly. */
  ghost predicate Plain(row: Row, mac: string, local: string, remote: string) {
    && row.neighborMac == Some(mac) && row.localPort == Some(local) && row.remotePort == Some(remote)
    && local != "" && remote != ""
  }

  /** Such a row says just that, whatever its other fields are. */
  lemma PlainRowSays(t: PortText, swMac: string, row: Row, mac: string, local: string, remote: string, p: Port, q: Port)
    requires Plain(row, mac, local, remote) && t.upper(mac) != ""
    ensures Says(t, swMac, row, p, q)
            <==> p == Port(t.upper(swMac), t.norm(local)) && q == Port(t.upper(mac), t.norm(remote))
  {
    SaysRead(t, swMac, row, p, q);
  }

  /** One physical link, reported by the switches at both of its ends, is one link or one self loop. */
  lemma SameLinkFromBothEnds(t: PortText, mac1: string, row1: Row, mac2: string, row2: Row, local: string,
                             remote: string)
    requires Plain(row1, mac2, local, remote) && Plain(row2, mac1, remote, local)
    requires t.upper(mac1) != "" && t.upper(mac2) != ""
    ensures forall l :: RowTellsLink(t, mac1, row1, l) <==> RowTellsLink(t, mac2, row2, l)
    ensures forall s :: RowTellsLoop(t, mac1, row1, s) <==> RowTellsLoop(t, mac2, row2, s)
    ensures (exists l :: RowTellsLink(t, mac1, row1, l)) != (exists s :: RowTellsLoop(t, mac1, row1, s))
  {
    var p, q := Port(t.upper(mac1), t.norm(local)), Port(t.upper(mac2), t.norm(remote));
    forall x, y ensures Says(t, mac1, row1, x, y) <==> x == p && y == q {
      PlainRowSays(t, mac1, row1, mac2, local, remote, x, y);
    }
    forall x, y ensures Says(t, mac2, row2, x, y) <==> x == q && y == p {
      PlainRowSays(t, mac2, row2, mac1, remote, local, x, y);
    }
    assert Says(t, mac1, row1, p, q) && Says(t, mac2, row2, q, p);
    ClassifiedAsTold(t, mac1, row1);
    assert Classify(t, mac1, row1) != Nothing;
  }

  // ----- collecting

  /** One of the first j rows of switch number i, or a row of an earlier switch, contributes f. */
  ghost predicate FoundBefore(t: PortText, nbs: Neighbors, i: nat, j: nat, f: Finding) {
    exists a: nat, b: nat :: a < |nbs| && b < |nbs[a].1| && (a < i || (a == i && b < j))
      && Classify(t, nbs[a].0, nbs[a].1[b]) == f
  }

  /** What the rows contribute together is what they tell. */
  lemma FoundIsTold(t: PortText, nbs: Neighbors)
    ensures forall l :: LinkTold(t, nbs, l) <==> FoundBefore(t, nbs, |nbs|, 0, Between(l))
    ensures forall s :: LoopTold(t, nbs, s) <==> FoundBefore(t, nbs, |nbs|, 0, OnSameSwitch(s))
  {
    forall a: nat, b: nat | a < |nbs| && b < |nbs[a].1|
      ensures forall l ::
                RowTellsLink(t, nbs[a].0, nbs[a].1[b], l) <==> Classify(t, nbs[a].0, nbs[a].1[b]) == Between(l)
      ensures forall s ::
                RowTellsLoop(t, nbs[a].0, nbs[a].1[b], s) <==> Classify(t, nbs[a].0, nbs[a].1[b]) == OnSameSwitch(s)
    {
      ClassifiedAsTold(t, nbs[a].0, nbs[a].1[b]);
    }
  }

  /** Links are external and stored one way round. */
  lemma FoundLinksAreSorted(t: PortText, nbs: Neighbors, links: set<Link>)
    requires forall l :: l in links ==> LinkTold(t, nbs, l)
    ensures External(links) && OneWay(links)
  {
    forall l | l in links ensures l.0.sw != l.1.sw && StringLe(l.0.sw, l.1.sw) {
      assert LinkTold(t, nbs, l);
    }
    forall l | l in links ensures (l.1, l.0) !in links {
      StringOrder(l.0.sw, l.1.sw);
    }
  }

  method CollectLinks(t: PortText, nbs: Neighbors) returns (links: set<Link>, selfLoops: set<SelfLoop>)
    ensures forall l :: l in links <==> LinkTold(t, nbs, l)
    ensures forall s :: s in selfLoops <==> LoopTold(t, nbs, s)
  {
    links, selfLoops := {}, {};
    for i := 0 to |nbs|
      invariant forall l :: l in links <==> FoundBefore(t, nbs, i, 0, Between(l))
      invariant forall s :: s in selfLoops <==> FoundBefore(t, nbs, i, 0, OnSameSwitch(s))
    {
      var swMac := t.upper(nbs[i].0);
      var rows := nbs[i].1;
      for j := 0 to |rows|
        invariant forall l :: l in links <==> FoundBefore(t, nbs, i, j, Between(l))
        invariant forall s :: s in selfLoops <==> FoundBefore(t, nbs, i, j, OnSameSwitch(s))
      {
        NextRow(t, nbs, i, j);
        var nbMac := NeighborMac(t, rows[j]);
        if nbMac == "" {
          continue;
        }
        var local, remote := t.norm(LocalPort(rows[j])), t.norm(RemotePort(rows[j]));
        if swMac == nbMac {
          selfLoops := selfLoops + {(swMac, Sorted2(local, remote))};
          continue;
        }
        links := links + {SortedLink(Port(swMac, local), Port(nbMac, remote))};
      }
      NextSwitch(t, nbs, i);
    }
    FoundIsTold(t, nbs);
  }

  lemma NextRow(t: PortText, nbs: Neighbors, i: nat, j: nat)
    requires i < |nbs| && j < |nbs[i].1|
    ensures var found := Classify(t, nbs[i].0, nbs[i].1[j]);
            forall f :: FoundBefore(t, nbs, i, j + 1, f) <==> FoundBefore(t, nbs, i, j, f) || f == found
  {
    var found := Classify(t, nbs[i].0, nbs[i].1[j]);
    forall f ensures FoundBefore(t, nbs, i, j + 1, f) <==> FoundBefore(t, nbs, i, j, f) || f == found {
      if FoundBefore(t, nbs, i, j + 1, f) {
        var a: nat, b: nat :| a < |nbs| && b < |nbs[a].1| && (a < i || (a == i && b < j + 1))
          && Classify(t, nbs[a].0, nbs[a].1[b]) == f;
        assert (a == i && b == j) || FoundBefore(t, nbs, i, j, f);
      }
    }
  }

  lemma NextSwitch(t: PortText, nbs: Neighbors, i: nat)
    requires i < |nbs|
    ensures forall f :: FoundBefore(t, nbs, i + 1, 0, f) <==> FoundBefore(t, nbs, i, |nbs[i].1|, f)
  {
  }
}
