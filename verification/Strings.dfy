/** Text as Python cuts it: stripping and slicing. */
module Strings {

  /** Python's str.isspace for one character, taken as given. */
  type Spaces = char -> bool

  function StripLeft(ws: Spaces, s: string): (stripped: string) {
    if s != "" && ws(s[0]) then StripLeft(ws, s[1..]) else s
  }

  function StripRight(ws: Spaces, s: string): (stripped: string) {
    if s != "" && ws(s[|s| - 1]) then StripRight(ws, s[..|s| - 1]) else s
  }

  function Strip(ws: Spaces, s: string): (stripped: string) {
    StripRight(ws, StripLeft(ws, s))
  }

  /** Python's s[a:b] for a <= b. */
  function Slice(s: string, a: nat, b: nat): (slice: string)
    requires a <= b
  {
    if |s| <= a then "" else if |s| <= b then s[a..] else s[a..b]
  }

  predicate OccursAt(s: string, t: string, i: nat) {
    i + |t| <= |s| && s[i..i + |t|] == t
  }

  predicate Contains(s: string, t: string) {
    exists i: nat | i <= |s| :: OccursAt(s, t, i)
  }

  function Repeat(c: char, n: nat): (s: string)
    ensures |s| == n && forall i :: 0 <= i < n ==> s[i] == c
  {
    seq(n, _ => c)
  }

  /** No white space at either end. */
  ghost predicate Trimmed(ws: Spaces, s: string) {
    s != "" ==> !ws(s[0]) && !ws(s[|s| - 1])
  }

  lemma {:induction false} StripRightPadded(ws: Spaces, s: string, n: nat)
    requires ws(' ') && Trimmed(ws, s)
    ensures StripRight(ws, s + Repeat(' ', n)) == s
    decreases n
  {
    var t := s + Repeat(' ', n);
    if n == 0 {
      assert t == s;
    } else {
      assert t[..|t| - 1] == s + Repeat(' ', n - 1);
      StripRightPadded(ws, s, n - 1);
    }
  }

  lemma {:induction false} StripLeftSpaces(ws: Spaces, n: nat)
    requires ws(' ')
    ensures StripLeft(ws, Repeat(' ', n)) == ""
  {
    if n > 0 {
      assert Repeat(' ', n)[1..] == Repeat(' ', n - 1);
      StripLeftSpaces(ws, n - 1);
    }
  }

  /** A trimmed cell padded with spaces strips to itself. */
  lemma StripPadded(ws: Spaces, s: string, n: nat)
    requires ws(' ') && Trimmed(ws, s)
    ensures Strip(ws, s + Repeat(' ', n)) == s
  {
    if s == "" {
      assert s + Repeat(' ', n) == Repeat(' ', n);
      StripLeftSpaces(ws, n);
    } else {
      assert (s + Repeat(' ', n))[0] == s[0];
      StripRightPadded(ws, s, n);
    }
  }

  /** Nothing but white space. */
  ghost predicate Blank(ws: Spaces, s: string) {
    forall i :: 0 <= i < |s| ==> ws(s[i])
  }

  /** Stripping takes white space off both ends, and all of it. */
  ghost predicate IsStripped(ws: Spaces, s: string, stripped: string) {
    Trimmed(ws, stripped) && exists p, q :: Blank(ws, p) && Blank(ws, q) && s == p + stripped + q
  }

  lemma {:induction false} StripLeftExactly(ws: Spaces, s: string) returns (p: string)
    ensures Blank(ws, p) && s == p + StripLeft(ws, s)
    ensures StripLeft(ws, s) != "" ==> !ws(StripLeft(ws, s)[0])
  {
    p := "";
    if s != "" && ws(s[0]) {
      p := StripLeftExactly(ws, s[1..]);
      p := [s[0]] + p;
    }
  }

  lemma {:induction false} StripRightExactly(ws: Spaces, s: string) returns (q: string)
    ensures Blank(ws, q) && s == StripRight(ws, s) + q
    ensures var r := StripRight(ws, s); r != "" ==> !ws(r[|r| - 1]) && r[0] == s[0]
  {
    q := "";
    if s != "" && ws(s[|s| - 1]) {
      q := StripRightExactly(ws, s[..|s| - 1]);
      assert s == s[..|s| - 1] + [s[|s| - 1]];
      q := q + [s[|s| - 1]];
    }
  }

  lemma StripExactly(ws: Spaces, s: string)
    ensures IsStripped(ws, s, Strip(ws, s))
    ensures Strip(ws, s) == "" <==> Blank(ws, s)
  {
    var p := StripLeftExactly(ws, s);
    var t := StripLeft(ws, s);
    var q := StripRightExactly(ws, t);
    var r := Strip(ws, s);
    assert s == p + r + q;
    if r == "" { assert s == p + q; }
    if r != "" { assert s[|p|] == r[0]; }
  }

  /** There is only one way to strip. */
  lemma StrippedOnce(ws: Spaces, s: string, x: string)
    requires IsStripped(ws, s, x)
    ensures x == Strip(ws, s)
  {
    var p, q :| Blank(ws, p) && Blank(ws, q) && s == p + x + q;
    StripExactly(ws, s);
    if x == "" {
      assert s == p + q;
    } else {
      assert s[|p|] == x[0];
      var a, b :| Blank(ws, a) && Blank(ws, b) && s == a + Strip(ws, s) + b;
      SameEnds(ws, p, x, q, a, Strip(ws, s), b);
    }
  }

  /** A blank beginning does not reach a character that is no white space; nor does a blank end. */
  lemma BlankStops(ws: Spaces, p: string, s: string, i: nat)
    requires Blank(ws, p) && p <= s && i < |s| && !ws(s[i])
    ensures |p| <= i
  {
  }

  lemma BlankEndStops(ws: Spaces, q: string, s: string, i: nat)
    requires Blank(ws, q) && |q| <= |s| && s[|s| - |q|..] == q && i < |s| && !ws(s[i])
    ensures i < |s| - |q|
  {
    assert forall k :: |s| - |q| <= k < |s| ==> s[k] == q[k - (|s| - |q|)];
  }

  /** Between blanks, two trimmed texts that make the same whole are the same. */
  lemma SameEnds(ws: Spaces, p: string, x: string, q: string, a: string, y: string, b: string)
    requires Blank(ws, p) && Blank(ws, q) && Blank(ws, a) && Blank(ws, b) && p + x + q == a + y + b
    requires x != "" && y != "" && Trimmed(ws, x) && Trimmed(ws, y)
    ensures x == y
  {
    var s, t := p + x + q, a + y + b;
    assert s[|p|] == x[0] && s[|p| + |x| - 1] == x[|x| - 1];
    assert t[|a|] == y[0] && t[|a| + |y| - 1] == y[|y| - 1];
    BlankStops(ws, a, s, |p|);
    BlankStops(ws, p, t, |a|);
    BlankEndStops(ws, b, s, |p| + |x| - 1);
    BlankEndStops(ws, q, t, |a| + |y| - 1);
    assert x == s[|p|..|p| + |x|] && y == t[|a|..|a| + |y|];
  }
}
