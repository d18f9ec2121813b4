/** Switch ports and the order in which Python sorts them. */
module Ports {

  /** A graph node: a switch (by upper-cased MAC address) and a normalised port. */
  datatype Port = Port(sw: string, port: string)

  /** Two ports that LLDP reports as wired together, smaller port first. */
  type Link = (Port, Port)

  /** Comparison of strings by code point, a proper prefix coming first. */
  predicate StringLe(a: string, b: string) {
    if a == "" then true
    else if b == "" then false
    else if a[0] != b[0] then a[0] < b[0]
    else StringLe(a[1..], b[1..])
  }

  predicate PortLe(p: Port, q: Port) {
    if p.sw != q.sw then StringLe(p.sw, q.sw) else StringLe(p.port, q.port)
  }

  function Sorted2(a: string, b: string): (pair: (string, string)) {
    if StringLe(a, b) then (a, b) else (b, a)
  }

  function SortedLink(p: Port, q: Port): (link: Link) {
    if PortLe(p, q) then (p, q) else (q, p)
  }

  lemma {:induction false} StringOrder(a: string, b: string)
    ensures StringLe(a, b) || StringLe(b, a)
    ensures StringLe(a, b) && StringLe(b, a) ==> a == b
    decreases |a|
  {
    if a != "" && b != "" {
      StringOrder(a[1..], b[1..]);
      assert a == [a[0]] + a[1..] && b == [b[0]] + b[1..];
    }
  }

  lemma {:induction false} StringLeTransitive(a: string, b: string, c: string)
    requires StringLe(a, b) && StringLe(b, c)
    ensures StringLe(a, c)
    decreases |a|
  {
    if a != "" && b != "" && c != "" && a[0] == b[0] == c[0] {
      StringLeTransitive(a[1..], b[1..], c[1..]);
    }
  }

  /** The comparison is lexicographic: a proper prefix comes first, otherwise the first difference decides. */
  lemma {:induction false} StringLeExactly(a: string, b: string)
    ensures StringLe(a, b) <==> a <= b || exists i :: 0 <= i < |a| && i < |b| && a[..i] == b[..i] && a[i] < b[i]
    decreases |a|
  {
    if a != "" && b != "" {
      if a[0] == b[0] {
        StringLeExactly(a[1..], b[1..]);
        TailDecides(a, b);
      } else {
        assert a[0] < b[0] ==> a[..0] == b[..0];
        forall i | 0 < i < |a| && i < |b| ensures a[..i] != b[..i] { assert a[..i][0] != b[..i][0]; }
      }
    }
  }

  lemma TailDecides(a: string, b: string)
    requires a != "" && b != "" && a[0] == b[0]
    ensures a <= b <==> a[1..] <= b[1..]
    ensures (exists i :: 0 <= i < |a| && i < |b| && a[..i] == b[..i] && a[i] < b[i])
            <==> exists i :: 0 <= i < |a[1..]| && i < |b[1..]| && a[1..][..i] == b[1..][..i] && a[1..][i] < b[1..][i]
  {
    var x, y := a[1..], b[1..];
    assert a == [a[0]] + x && b == [b[0]] + y;
    if i :| 0 <= i < |a| && i < |b| && a[..i] == b[..i] && a[i] < b[i] {
      assert a[1..i] == a[..i][1..] == b[..i][1..] == b[1..i];
      assert x[..i - 1] == a[1..i] && y[..i - 1] == b[1..i];
    }
    if i :| 0 <= i < |x| && i < |y| && x[..i] == y[..i] && x[i] < y[i] {
      assert a[..i + 1] == [a[0]] + x[..i] && b[..i + 1] == [b[0]] + y[..i];
    }
  }

  /** Ports are totally ordered, by switch and then by port. */
  lemma PortOrder(p: Port, q: Port, r: Port)
    ensures PortLe(p, q) || PortLe(q, p)
    ensures PortLe(p, q) && PortLe(q, p) ==> p == q
    ensures PortLe(p, q) && PortLe(q, r) ==> PortLe(p, r)
  {
    StringOrder(p.sw, q.sw);
    StringOrder(q.sw, r.sw);
    StringOrder(p.port, q.port);
    if StringLe(p.sw, q.sw) && StringLe(q.sw, r.sw) { StringLeTransitive(p.sw, q.sw, r.sw); }
    if StringLe(p.port, q.port) && StringLe(q.port, r.port) { StringLeTransitive(p.port, q.port, r.port); }
  }

  /** A link is the same link whichever of its two ends is named first. */
  lemma SortedLinkSym(p: Port, q: Port)
    ensures SortedLink(p, q) == SortedLink(q, p)
    ensures SortedLink(p, q) in {(p, q), (q, p)}
  {
    StringOrder(p.sw, q.sw);
    StringOrder(p.port, q.port);
  }

  lemma Sorted2Sym(a: string, b: string)
    ensures Sorted2(a, b) == Sorted2(b, a)
    ensures Sorted2(a, b) in {(a, b), (b, a)}
  {
    StringOrder(a, b);
  }
}
