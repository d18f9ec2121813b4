/** The repair of repeated sort orders among the items of a graph. */
module SortOrder {
  import opened Collections

  ghost predicate Nondecreasing(s: seq<int>) {
    forall i, j :: 0 <= i <= j < |s| ==> s[i] <= s[j]
  }

  ghost predicate Increasing(s: seq<int>) {
    forall i, j :: 0 <= i < j < |s| ==> s[i] < s[j]
  }

  ghost predicate NoEqualNeighbours(s: seq<int>) {
    forall i :: 0 <= i < |s| - 1 ==> s[i] != s[i + 1]
  }

  // ----- what the repair is for

  /** Keep the order when it is larger than the one before, else take the next. */
  ghost function RepairedAt(s: seq<int>, k: nat): (v: int)
    requires k < |s|
    ensures s[k] <= v
  {
    if k == 0 || s[k] > RepairedAt(s, k - 1) then s[k] else RepairedAt(s, k - 1) + 1
  }

  ghost function Repaired(s: seq<int>): (r: seq<int>)
    ensures |r| == |s|
  {
    seq(|s|, k requires 0 <= k < |s| => RepairedAt(s, k))
  }

  lemma {:induction false} RepairedAtRises(s: seq<int>, i: nat, j: nat)
    requires i < j < |s|
    ensures RepairedAt(s, i) < RepairedAt(s, j)
    decreases j
  {
    if i < j - 1 {
      RepairedAtRises(s, i, j - 1);
    }
  }

  lemma {:induction false} RepairedAtLeast(s: seq<int>, t: seq<int>, k: nat)
    requires |t| == |s| && k < |s| && Increasing(t)
    requires forall i :: 0 <= i < |s| ==> s[i] <= t[i]
    ensures RepairedAt(s, k) <= t[k]
  {
    if k > 0 {
      RepairedAtLeast(s, t, k - 1);
    }
  }

  /** The smallest strictly increasing orders that lower none of the given ones. */
  lemma RepairedLeast(s: seq<int>)
    ensures Increasing(Repaired(s))
    ensures forall k :: 0 <= k < |s| ==> s[k] <= Repaired(s)[k]
    ensures forall t: seq<int>, k: nat ::
              |t| == |s| && Increasing(t) && (forall i :: 0 <= i < |s| ==> s[i] <= t[i]) && k < |s| ==>
                Repaired(s)[k] <= t[k]
  {
    forall i: nat, j: nat | i < j < |s| ensures Repaired(s)[i] < Repaired(s)[j] { RepairedAtRises(s, i, j); }
    forall t: seq<int>, k: nat | |t| == |s| && Increasing(t) && (forall i :: 0 <= i < |s| ==> s[i] <= t[i]) && k < |s|
      ensures Repaired(s)[k] <= t[k]
    {
      RepairedAtLeast(s, t, k);
    }
  }

  // ----- what the loops compute

  /** The inner loop from position j on: an order not above its neighbour's is raised by one. */
  function Shifted(a: seq<int>, j: nat): (r: seq<int>)
    requires j > 0
    ensures |r| == |a| && forall k :: 0 <= k < j && k < |a| ==> r[k] == a[k]
    decreases |a| - j
  {
    if j >= |a| then a
    else Shifted(if a[j - 1] >= a[j] then a[j := a[j] + 1] else a, j + 1)
  }

  /** The outer loop from position i on. */
  function Looped(a: seq<int>, i: nat): (r: seq<int>)
    ensures |r| == |a|
    decreases |a| - i
  {
    if i + 1 >= |a| then a
    else Looped(if a[i] == a[i + 1] then Shifted(a, i + 1) else a, i + 1)
  }

  // ----- the loops in one pass, for any input

  /**
   What t passes have made of an order s that no step has reached yet, beside the current order p of its left
   neighbour: it has been raised once in each pass, until it got above that neighbour.
   */
  function Raised(s: int, p: int, t: nat): (v: int) {
    if s > p then s else if s + t <= p + 1 then s + t else p + 1
  }

  /** The order left at a position, and the number of passes run once it is final. */
  datatype Progress = Progress(order: int, passes: nat)

  /** Computed from left to right: an order that has come to equal its left neighbour starts a pass. */
  function OnePass(s: seq<int>, k: nat): (r: Progress)
    requires k < |s|
  {
    if k == 0 then Progress(s[0], 0)
    else
      var left := OnePass(s, k - 1);
      var v := Raised(s[k], left.order, left.passes);
      if v == left.order then Progress(v + 1, left.passes + 1) else Progress(v, left.passes)
  }

  /** Every order from position j on is what t passes have made of the given one. */
  ghost predicate RaisedFrom(s: seq<int>, a: seq<int>, j: nat, t: nat) {
    |a| == |s| && 0 < j && forall k :: j <= k < |s| ==> a[k] == Raised(s[k], a[k - 1], t)
  }

  /** The inner loop is one pass more for every order it goes through, with its left neighbour raised at most once. */
  lemma {:induction false} ShiftedRaises(s: seq<int>, b: seq<int>, a: seq<int>, j: nat, t: nat)
    requires RaisedFrom(s, b, j, t) && |a| == |s| && (forall k :: j <= k < |s| ==> a[k] == b[k])
    requires j <= |s| ==> b[j - 1] <= a[j - 1] <= b[j - 1] + 1
    ensures RaisedFrom(s, Shifted(a, j), j, t + 1)
    decreases |s| - j
  {
    if j < |s| {
      var c := if a[j - 1] >= a[j] then a[j := a[j] + 1] else a;
      ShiftedRaises(s, b, c, j + 1, t);
      var r := Shifted(c, j + 1);
      assert r[j] == c[j] && r[j - 1] == c[j - 1];
    }
  }

  /** The first orders, up to position i, are final and the others are raised by the passes so far. */
  ghost predicate FinalTo(s: seq<int>, a: seq<int>, i: nat) {
    && i < |s| == |a| && (forall k: nat :: k <= i ==> a[k] == OnePass(s, k).order)
    && RaisedFrom(s, a, i + 1, OnePass(s, i).passes)
  }

  /** One step of the outer loop makes one order more final. */
  lemma NextFinal(s: seq<int>, a: seq<int>, i: nat)
    requires FinalTo(s, a, i) && i + 1 < |s|
    ensures FinalTo(s, if a[i] == a[i + 1] then Shifted(a, i + 1) else a, i + 1)
  {
    if a[i] == a[i + 1] {
      ShiftedRaises(s, a, a, i + 1, OnePass(s, i).passes);
    }
    assert a[i] == OnePass(s, i).order && a[i + 1] == Raised(s[i + 1], a[i], OnePass(s, i).passes);
  }

  lemma {:induction false} LoopedFrom(s: seq<int>, a: seq<int>, i: nat)
    requires FinalTo(s, a, i)
    ensures forall k: nat :: k < |s| ==> Looped(a, i)[k] == OnePass(s, k).order
    decreases |s| - i
  {
    if i + 1 < |s| {
      NextFinal(s, a, i);
      LoopedFrom(s, if a[i] == a[i + 1] then Shifted(a, i + 1) else a, i + 1);
    }
  }

  /** For every input the two loops compute the one pass. */
  lemma LoopedIsOnePass(s: seq<int>)
    ensures forall k: nat :: k < |s| ==> Looped(s, 0)[k] == OnePass(s, k).order
  {
    if s != [] {
      LoopedFrom(s, s, 0);
    }
  }

  // ----- exactly when the loop succeeds

  /** How far the repair has to raise each order. */
  ghost function Deficit(s: seq<int>, k: nat): (d: nat)
    requires k < |s|
  {
    RepairedAt(s, k) - s[k]
  }

  /** The order at k has to be raised at most one step further than some earlier one. */
  ghost predicate Preceded(s: seq<int>, k: nat) {
    k < |s| && exists j: nat :: j < k && Deficit(s, k) <= Deficit(s, j) + 1
  }

  ghost predicate DeficitsGrowByOne(s: seq<int>) {
    forall k: nat :: 0 < k < |s| ==> Preceded(s, k)
  }

  /** The loop has kept up to position k. */
  ghost predicate KeptUp(s: seq<int>, k: nat) {
    k < |s| && forall j: nat :: j <= k ==> OnePass(s, j).order == RepairedAt(s, j)
  }

  /** t is the largest deficit up to position k. */
  ghost predicate LargestDeficit(s: seq<int>, k: nat, t: nat) {
    k < |s| && (exists j: nat :: j <= k && Deficit(s, j) == t) && forall j: nat :: j <= k ==> Deficit(s, j) <= t
  }

  /**
   The next order comes out repaired exactly when its deficit is at most one more than the number of passes before.
   */
  lemma NextRepaired(s: seq<int>, k: nat)
    requires 0 < k < |s| && OnePass(s, k - 1).order == RepairedAt(s, k - 1)
    ensures var t, d := OnePass(s, k - 1).passes, Deficit(s, k);
            && (OnePass(s, k).order == RepairedAt(s, k) <==> d <= t + 1)
            && (d <= t + 1 ==> OnePass(s, k).passes == if d > t then d else t)
  {
  }

  /** What the largest deficit so far says about the next one. */
  lemma NextDeficit(s: seq<int>, k: nat, t: nat)
    requires 0 < k < |s| && LargestDeficit(s, k - 1, t)
    ensures Preceded(s, k) <==> Deficit(s, k) <= t + 1
    ensures LargestDeficit(s, k, if Deficit(s, k) > t then Deficit(s, k) else t)
  {
    var top: nat :| top <= k - 1 && Deficit(s, top) == t;
    assert Deficit(s, k) <= t + 1 ==> Deficit(s, k) <= Deficit(s, top) + 1;
  }

  /** While the loop keeps up, the passes it has run number the largest deficit so far. */
  lemma {:induction false} KeepsUpExactly(s: seq<int>, k: nat)
    requires k < |s|
    ensures KeptUp(s, k) <==> forall j: nat :: 0 < j <= k ==> Preceded(s, j)
    ensures KeptUp(s, k) ==> LargestDeficit(s, k, OnePass(s, k).passes)
  {
    if k == 0 {
      assert Deficit(s, 0) == 0;
    } else {
      KeepsUpExactly(s, k - 1);
      assert KeptUp(s, k) <==> KeptUp(s, k - 1) && OnePass(s, k).order == RepairedAt(s, k);
      if KeptUp(s, k - 1) {
        NextRepaired(s, k);
        NextDeficit(s, k, OnePass(s, k - 1).passes);
      }
    }
  }

  /** For any input, no order is lowered and none is raised above its repaired value. */
  lemma {:induction false} OnePassBetween(s: seq<int>, k: nat)
    requires k < |s|
    ensures s[k] <= OnePass(s, k).order <= RepairedAt(s, k)
  {
    if k > 0 {
      OnePassBetween(s, k - 1);
    }
  }

  /** The result increases strictly only as the repaired orders. */
  lemma IncreasingIsRepaired(s: seq<int>)
    ensures forall k :: 0 <= k < |s| ==> s[k] <= Looped(s, 0)[k] <= Repaired(s)[k]
    ensures Increasing(Looped(s, 0)) <==> Looped(s, 0) == Repaired(s)
  {
    var r := Looped(s, 0);
    LoopedIsOnePass(s);
    forall k: nat | k < |s| ensures s[k] <= r[k] <= Repaired(s)[k] { OnePassBetween(s, k); }
    if Increasing(r) {
      forall k: nat | k < |s| ensures r[k] == Repaired(s)[k] { RepairedAtLeast(s, r, k); }
    }
    if r == Repaired(s) { RepairedLeast(s); }
  }

  lemma RepairedIsKeptUp(s: seq<int>)
    requires s != []
    ensures Looped(s, 0) == Repaired(s) <==> KeptUp(s, |s| - 1)
  {
    LoopedIsOnePass(s);
    if Looped(s, 0) == Repaired(s) {
      forall j: nat | j <= |s| - 1 ensures OnePass(s, j).order == RepairedAt(s, j) {
        assert Looped(s, 0)[j] == Repaired(s)[j];
      }
    }
  }

  /**
   For any input, the result is strictly increasing exactly when deficits grow by one at most; then it is the
   repaired one.
   */
  lemma IncreasingExactly(s: seq<int>)
    ensures forall k :: 0 <= k < |s| ==> s[k] <= Looped(s, 0)[k] <= Repaired(s)[k]
    ensures Increasing(Looped(s, 0)) <==> DeficitsGrowByOne(s)
    ensures DeficitsGrowByOne(s) ==> Looped(s, 0) == Repaired(s)
  {
    IncreasingIsRepaired(s);
    if s != [] {
      RepairedIsKeptUp(s);
      KeepsUpExactly(s, |s| - 1);
    }
  }

  /** Orders that do not decrease are repaired completely. */
  lemma SortedIsRepaired(s: seq<int>)
    requires Nondecreasing(s)
    ensures Looped(s, 0) == Repaired(s)
  {
    forall k: nat | 0 < k < |s| ensures Preceded(s, k) {
      assert Deficit(s, k) <= Deficit(s, k - 1) + 1;
    }
    IncreasingExactly(s);
  }

  // ----- repetitions

  /** Only equal neighbours start a pass. */
  lemma {:induction false} LoopedUnchanged(s: seq<int>, i: nat)
    requires NoEqualNeighbours(s)
    ensures Looped(s, i) == s
    decreases |s| - i
  {
    if i + 1 < |s| {
      LoopedUnchanged(s, i + 1);
    }
  }

  /**
   What the loop achieves on any input: equal neighbours are parted, exactly the orders without equal neighbours are
   left alone, and a second run changes nothing.
   */
  lemma NeighboursParted(s: seq<int>)
    ensures NoEqualNeighbours(Looped(s, 0))
    ensures Looped(s, 0) == s <==> NoEqualNeighbours(s)
    ensures Looped(Looped(s, 0), 0) == Looped(s, 0)
  {
    LoopedIsOnePass(s);
    forall k: nat | k + 1 < |s| ensures Looped(s, 0)[k] != Looped(s, 0)[k + 1] {
      assert OnePass(s, k).order != OnePass(s, k + 1).order;
    }
    LoopedUnchanged(Looped(s, 0), 0);
    if NoEqualNeighbours(s) { LoopedUnchanged(s, 0); }
  }

  /** The one pass gives no two positions the same order. */
  ghost predicate OnePassDistinct(s: seq<int>) {
    forall i: nat, j: nat {:trigger OnePass(s, i), OnePass(s, j)} :: i < j < |s|
      ==> OnePass(s, i).order != OnePass(s, j).order
  }

  lemma DistinctByOnePass(s: seq<int>)
    ensures Distinct(Looped(s, 0)) <==> OnePassDistinct(s)
  {
    LoopedIsOnePass(s);
    var r := Looped(s, 0);
    if Distinct(r) {
      forall i: nat, j: nat | i < j < |s| ensures OnePass(s, i).order != OnePass(s, j).order { assert r[i] != r[j]; }
    }
    if OnePassDistinct(s) {
      forall i: nat, j: nat | i < j < |s| ensures r[i] != r[j] { assert OnePass(s, i).order != OnePass(s, j).order; }
    }
  }

  /**
   Whether any two orders are still equal: without equal neighbours exactly when they were before, never when
   deficits grow by one at most, and for any input exactly when the one pass repeats an order.
   */
  lemma RepetitionExactly(s: seq<int>)
    ensures NoEqualNeighbours(s) ==> (Distinct(Looped(s, 0)) <==> Distinct(s))
    ensures DeficitsGrowByOne(s) ==> Distinct(Looped(s, 0))
    ensures Distinct(Looped(s, 0)) <==> OnePassDistinct(s)
  {
    DistinctByOnePass(s);
    if NoEqualNeighbours(s) { LoopedUnchanged(s, 0); }
    if DeficitsGrowByOne(s) { IncreasingExactly(s); }
  }

  /** An input for which the repair leaves two items with the same order. */
  lemma UnsortedKeepsRepetition()
    ensures exists s: seq<int> :: !Nondecreasing(s) && Looped(s, 0) == s && |s| == 3 && s[0] == s[2]
  {
    var s := [1, 0, 1];
    assert s[0] > s[1] && s[1] != s[2];
    LoopedUnchanged(s, 0);
  }

  /** And an unsorted input that it repairs completely. */
  lemma UnsortedRepaired()
    ensures exists s: seq<int> :: !Nondecreasing(s) && Looped(s, 0) == [1, 2, 5, 6] && |s| == 4
  {
    var s := [1, 1, 5, 4];
    assert s[2] > s[3];
    LoopedIsOnePass(s);
    assert OnePass(s, 0) == Progress(1, 0);
    assert OnePass(s, 1) == Progress(2, 1);
    assert OnePass(s, 2) == Progress(5, 1);
    assert OnePass(s, 3) == Progress(6, 2);
  }

  // ----- the loops

  /** The inner loop of one pass. */
  method Shift(sortorder: array<int>, next: nat)
    requires 0 < next
    modifies sortorder
    ensures sortorder[..] == Shifted(old(sortorder[..]), next)
  {
    var j := next;
    while j < sortorder.Length
      invariant next <= j
      invariant Shifted(sortorder[..], j) == Shifted(old(sortorder[..]), next)
      decreases sortorder.Length - j
    {
      ghost var a := sortorder[..];
      if sortorder[j - 1] >= sortorder[j] {
        sortorder[j] := sortorder[j] + 1;
        assert sortorder[..] == a[j := a[j] + 1];
      }
      j := j + 1;
    }
  }

  /** The whole loop. The items were reindexed before it, so the search for the next item set always stops at i + 1. */
  method Repair(sortorder: array<int>)
    modifies sortorder
    ensures forall k: nat :: k < sortorder.Length ==> sortorder[k] == OnePass(old(sortorder[..]), k).order
    ensures Increasing(sortorder[..]) <==> DeficitsGrowByOne(old(sortorder[..]))
    ensures DeficitsGrowByOne(old(sortorder[..])) ==> sortorder[..] == Repaired(old(sortorder[..]))
    ensures NoEqualNeighbours(sortorder[..])
    ensures sortorder[..] == old(sortorder[..]) <==> NoEqualNeighbours(old(sortorder[..]))
  {
    ghost var s := sortorder[..];
    var itemCount := sortorder.Length;
    var i := 0;
    while i < itemCount - 1
      invariant 0 <= i
      invariant Looped(sortorder[..], i) == Looped(s, 0)
      decreases itemCount - i
    {
      var next := i + 1;
      if next < itemCount && sortorder[i] == sortorder[next] {
        Shift(sortorder, next);
      }
      i := next;
    }
    LoopedIsOnePass(s);
    IncreasingExactly(s);
    NeighboursParted(s);
  }
}
