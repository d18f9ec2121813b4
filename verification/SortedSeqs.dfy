/** Sequences sorted by a comparison function, and what the vector operations compute on them. */
module SortedSeqs {
  import opened Collections

  /** A C comparison function: negative, zero or positive. */
  type Compare<!T> = (T, T) -> int

  ghost predicate TransitiveAt<T>(cmp: Compare<T>, x: T, y: T, z: T) {
    cmp(x, y) <= 0 && cmp(y, z) <= 0 ==> cmp(x, z) <= 0
  }

  /** What qsort and the searches expect of a comparison function; unequal elements may compare as zero. */
  ghost predicate TotalPreorder<T(!new)>(cmp: Compare<T>) {
    && (forall x, y :: cmp(x, y) < 0 <==> cmp(y, x) > 0)
    && (forall x, y, z {:trigger TransitiveAt(cmp, x, y, z)} :: TransitiveAt(cmp, x, y, z))
  }

  ghost predicate Sorted<T>(cmp: Compare<T>, s: seq<T>) {
    forall i, j :: 0 <= i <= j < |s| ==> cmp(s[i], s[j]) <= 0
  }

  ghost predicate StrictlySorted<T>(cmp: Compare<T>, s: seq<T>) {
    forall i, j :: 0 <= i < j < |s| ==> cmp(s[i], s[j]) < 0
  }

  ghost predicate Matches<T>(cmp: Compare<T>, s: seq<T>, x: T) {
    exists i :: 0 <= i < |s| && cmp(s[i], x) == 0
  }

  /** How many elements compare as equal to x. */
  ghost function Count<T>(cmp: Compare<T>, s: seq<T>, x: T): (n: nat) {
    if s == [] then 0 else (if cmp(s[0], x) == 0 then 1 else 0) + Count(cmp, s[1..], x)
  }

  lemma {:induction false} CountZero<T>(cmp: Compare<T>, s: seq<T>, x: T)
    ensures Count(cmp, s, x) == 0 <==> !Matches(cmp, s, x)
  {
    if s != [] {
      CountZero(cmp, s[1..], x);
      if i :| 0 <= i < |s| && cmp(s[i], x) == 0 {
        assert i > 0 ==> s[1..][i - 1] == s[i];
      }
    }
  }

  // ----- setdiff

  /** Merging two sorted sequences, dropping from the left one element for each equal one on the right. */
  ghost function SetDiff<T>(cmp: Compare<T>, l: seq<T>, r: seq<T>): (left: seq<T>)
    decreases |l| + |r|
  {
    if l == [] || r == [] then l
    else if cmp(l[0], r[0]) < 0 then [l[0]] + SetDiff(cmp, l[1..], r)
    else if cmp(l[0], r[0]) > 0 then SetDiff(cmp, l, r[1..])
    else SetDiff(cmp, l[1..], r[1..])
  }

  /**
   The merge as the block-moving loop runs it, from positions i and j: kept has been moved to the front, and the
   block l[b..i] of survivors has not been moved yet. The result is what the loop ends with.
   */
  ghost function MergeRun<T>(cmp: Compare<T>, l: seq<T>, r: seq<T>, kept: seq<T>, b: nat, i: nat,
                             j: nat): (left: seq<T>)
    requires b <= i <= |l| && j <= |r|
    decreases |l| - i + |r| - j
  {
    if i == |l| || j == |r| then kept + l[b..]
    else if cmp(l[i], r[j]) < 0 then MergeRun(cmp, l, r, kept, b, i + 1, j)
    else if cmp(l[i], r[j]) > 0 then MergeRun(cmp, l, r, kept, b, i, j + 1)
    else MergeRun(cmp, l, r, kept + l[b..i], i + 1, i + 1, j + 1)
  }

  lemma {:induction false} MergeRunIsSetDiff<T>(cmp: Compare<T>, l: seq<T>, r: seq<T>, kept: seq<T>, b: nat, i: nat,
                                                j: nat)
    requires b <= i <= |l| && j <= |r|
    ensures MergeRun(cmp, l, r, kept, b, i, j) == kept + l[b..i] + SetDiff(cmp, l[i..], r[j..])
    decreases |l| - i + |r| - j
  {
    if i < |l| && j < |r| {
      assert l[i..][1..] == l[i + 1..] && r[j..][1..] == r[j + 1..];
      if cmp(l[i], r[j]) < 0 {
        MergeRunIsSetDiff(cmp, l, r, kept, b, i + 1, j);
        assert l[b..i + 1] == l[b..i] + [l[i]];
      } else if cmp(l[i], r[j]) > 0 {
        MergeRunIsSetDiff(cmp, l, r, kept, b, i, j + 1);
      } else {
        MergeRunIsSetDiff(cmp, l, r, kept + l[b..i], i + 1, i + 1, j + 1);
      }
    } else {
      assert l[b..i] + l[i..] == l[b..];
    }
  }

  /** Nothing is left of a sequence without itself. */
  lemma {:induction false} SetDiffItself<T>(cmp: Compare<T>, s: seq<T>)
    requires forall x :: x in s ==> cmp(x, x) == 0
    ensures SetDiff(cmp, s, s) == []
  {
    if s != [] {
      SetDiffItself(cmp, s[1..]);
    }
  }

  lemma {:induction false} SetDiffWithin<T>(cmp: Compare<T>, l: seq<T>, r: seq<T>)
    ensures forall x :: x in SetDiff(cmp, l, r) ==> x in l
    decreases |l| + |r|
  {
    if l != [] && r != [] {
      if cmp(l[0], r[0]) < 0 {
        SetDiffWithin(cmp, l[1..], r);
      } else if cmp(l[0], r[0]) > 0 {
        SetDiffWithin(cmp, l, r[1..]);
      } else {
        SetDiffWithin(cmp, l[1..], r[1..]);
      }
    }
  }

  lemma SortedTail<T>(cmp: Compare<T>, s: seq<T>)
    requires Sorted(cmp, s) && s != []
    ensures Sorted(cmp, s[1..]) && forall x :: x in s[1..] ==> cmp(s[0], x) <= 0
  {
  }

  /** Nothing in a sorted sequence that starts above a equals x, when a does. */
  lemma NoneAbove<T(!new)>(cmp: Compare<T>, a: T, s: seq<T>, x: T)
    requires TotalPreorder(cmp) && Sorted(cmp, s) && s != [] && cmp(a, s[0]) < 0 && cmp(a, x) == 0
    ensures Count(cmp, s, x) == 0
  {
    forall i | 0 <= i < |s| ensures cmp(s[i], x) != 0 {
      assert cmp(s[0], s[i]) <= 0;
      assert TransitiveAt(cmp, s[0], s[i], x) && TransitiveAt(cmp, s[0], x, a);
    }
    CountZero(cmp, s, x);
  }

  /** The result is sorted, and of each class of equal elements as many are left as the left exceeds the right. */
  lemma {:induction false} SetDiffCorrect<T(!new)>(cmp: Compare<T>, l: seq<T>, r: seq<T>, x: T)
    requires TotalPreorder(cmp) && Sorted(cmp, l) && Sorted(cmp, r)
    ensures Sorted(cmp, SetDiff(cmp, l, r))
    ensures var more, less := Count(cmp, l, x), Count(cmp, r, x);
            Count(cmp, SetDiff(cmp, l, r), x) == if more > less then more - less else 0
    decreases |l| + |r|
  {
    if l != [] && r != [] {
      SortedTail(cmp, l);
      SortedTail(cmp, r);
      if cmp(l[0], r[0]) < 0 {
        SetDiffCorrect(cmp, l[1..], r, x);
        SetDiffWithin(cmp, l[1..], r);
        assert ([l[0]] + SetDiff(cmp, l[1..], r))[1..] == SetDiff(cmp, l[1..], r);
        if cmp(l[0], x) == 0 { NoneAbove(cmp, l[0], r, x); }
      } else if cmp(l[0], r[0]) > 0 {
        SetDiffCorrect(cmp, l, r[1..], x);
        if cmp(r[0], x) == 0 { NoneAbove(cmp, r[0], l, x); }
      } else {
        SetDiffCorrect(cmp, l[1..], r[1..], x);
        assert TransitiveAt(cmp, l[0], r[0], x) && TransitiveAt(cmp, r[0], l[0], x);
        assert TransitiveAt(cmp, x, l[0], r[0]) && TransitiveAt(cmp, x, r[0], l[0]);
      }
    }
  }

  /** The elements that compare as equal to x, in order. */
  ghost function Class<T>(cmp: Compare<T>, s: seq<T>, x: T): (c: seq<T>) {
    if s == [] then [] else (if cmp(s[0], x) == 0 then [s[0]] else []) + Class(cmp, s[1..], x)
  }

  lemma {:induction false} ClassSize<T>(cmp: Compare<T>, s: seq<T>, x: T)
    ensures |Class(cmp, s, x)| == Count(cmp, s, x)
  {
    if s != [] {
      ClassSize(cmp, s[1..], x);
    }
  }

  /** All but the first n, or nothing when there are no more. */
  ghost function Rest<T>(c: seq<T>, n: nat): (rest: seq<T>) {
    if n < |c| then c[n..] else []
  }

  lemma RestOf<T>(a: T, c: seq<T>, n: nat)
    ensures Rest([a] + c, n + 1) == Rest(c, n) && Rest(c, 0) == c
  {
  }

  lemma ClassOf<T>(cmp: Compare<T>, a: T, s: seq<T>, x: T)
    ensures Class(cmp, [a] + s, x) == if cmp(a, x) == 0 then [a] + Class(cmp, s, x) else Class(cmp, s, x)
  {
    assert ([a] + s)[1..] == s;
  }

  /** Elements that compare as equal belong to the same class. */
  lemma SameClass<T(!new)>(cmp: Compare<T>, a: T, b: T, x: T)
    requires TotalPreorder(cmp) && cmp(a, b) == 0
    ensures cmp(a, x) == 0 <==> cmp(b, x) == 0
  {
    assert TransitiveAt(cmp, a, b, x) && TransitiveAt(cmp, b, a, x);
    assert TransitiveAt(cmp, x, a, b) && TransitiveAt(cmp, x, b, a);
  }

  /** Which elements are left: of each class of equal elements the first ones go, and the others stay in order. */
  lemma {:induction false} SetDiffDropsFirst<T(!new)>(cmp: Compare<T>, l: seq<T>, r: seq<T>, x: T)
    requires TotalPreorder(cmp) && Sorted(cmp, l) && Sorted(cmp, r)
    ensures Class(cmp, SetDiff(cmp, l, r), x) == Rest(Class(cmp, l, x), |Class(cmp, r, x)|)
    decreases |l| + |r|
  {
    if l != [] && r != [] {
      var a, b, ls, rs := l[0], r[0], l[1..], r[1..];
      assert l == [a] + ls && r == [b] + rs;
      SortedTail(cmp, l);
      SortedTail(cmp, r);
      ClassOf(cmp, a, ls, x);
      ClassOf(cmp, b, rs, x);
      if cmp(a, b) < 0 {
        SetDiffDropsFirst(cmp, ls, r, x);
        ClassOf(cmp, a, SetDiff(cmp, ls, r), x);
        if cmp(a, x) == 0 { NoClassAbove(cmp, a, r, x); }
      } else if cmp(a, b) > 0 {
        SetDiffDropsFirst(cmp, l, rs, x);
        if cmp(b, x) == 0 { NoClassAbove(cmp, b, l, x); }
      } else {
        SetDiffDropsFirst(cmp, ls, rs, x);
        SameClass(cmp, a, b, x);
        RestOf(a, Class(cmp, ls, x), |Class(cmp, rs, x)|);
      }
    }
  }

  lemma NoClassAbove<T(!new)>(cmp: Compare<T>, a: T, s: seq<T>, x: T)
    requires TotalPreorder(cmp) && Sorted(cmp, s) && s != [] && cmp(a, s[0]) < 0 && cmp(a, x) == 0
    ensures Class(cmp, s, x) == []
  {
    NoneAbove(cmp, a, s, x);
    ClassSize(cmp, s, x);
  }

  ghost predicate Antisymmetric<T(!new)>(cmp: Compare<T>) {
    forall x, y :: cmp(x, y) == 0 ==> x == y
  }

  lemma {:induction false} CountIsMultiplicity<T(!new)>(cmp: Compare<T>, s: seq<T>, x: T)
    requires TotalPreorder(cmp) && Antisymmetric(cmp)
    ensures Count(cmp, s, x) == multiset(s)[x]
  {
    if s != [] {
      CountIsMultiplicity(cmp, s[1..], x);
      assert s == [s[0]] + s[1..];
    }
  }

  /** When only identical elements compare as equal, the multiset left is the difference of the multisets. */
  lemma SetDiffMultiset<T(!new)>(cmp: Compare<T>, l: seq<T>, r: seq<T>)
    requires TotalPreorder(cmp) && Antisymmetric(cmp) && Sorted(cmp, l) && Sorted(cmp, r)
    ensures multiset(SetDiff(cmp, l, r)) == multiset(l) - multiset(r)
  {
    forall x ensures multiset(SetDiff(cmp, l, r))[x] == (multiset(l) - multiset(r))[x] {
      SetDiffCorrect(cmp, l, r, x);
      CountIsMultiplicity(cmp, l, x);
      CountIsMultiplicity(cmp, r, x);
      CountIsMultiplicity(cmp, SetDiff(cmp, l, r), x);
    }
  }

  // ----- uniq

  /** The first element of every run of adjacent equal elements. */
  ghost function RunHeads<T>(cmp: Compare<T>, s: seq<T>): (heads: seq<T>) {
    if |s| <= 1 then s
    else RunHeads(cmp, s[..|s| - 1]) + if cmp(s[|s| - 2], s[|s| - 1]) != 0 then [s[|s| - 1]] else []
  }

  /** One more element: it is a head when it differs from its original neighbour. */
  lemma RunHeadsStep<T>(cmp: Compare<T>, s: seq<T>, i: nat)
    requires 0 < i < |s|
    ensures RunHeads(cmp, s[..i + 1]) == RunHeads(cmp, s[..i]) + if cmp(s[i - 1], s[i]) != 0 then [s[i]] else []
  {
    assert s[..i + 1][..i] == s[..i];
  }

  ghost predicate StartsRun<T>(cmp: Compare<T>, s: seq<T>, i: nat) {
    i < |s| && (i == 0 || cmp(s[i - 1], s[i]) != 0)
  }

  /** Where the kept elements stood. */
  ghost function RunStarts<T>(cmp: Compare<T>, s: seq<T>): (at: seq<nat>) {
    if s == [] then []
    else
      var n := |s| - 1;
      RunStarts(cmp, s[..n]) + if StartsRun(cmp, s, n) then [n] else []
  }

  /** Those are exactly the starts of the runs of adjacent equal elements, in order. */
  lemma {:induction false} RunStartsMembers<T>(cmp: Compare<T>, s: seq<T>)
    ensures forall i: nat {:trigger StartsRun(cmp, s, i)} :: i in RunStarts(cmp, s) <==> StartsRun(cmp, s, i)
    ensures forall k :: 0 <= k < |RunStarts(cmp, s)| ==> RunStarts(cmp, s)[k] < |s|
    ensures forall j, k :: 0 <= j < k < |RunStarts(cmp, s)| ==> RunStarts(cmp, s)[j] < RunStarts(cmp, s)[k]
  {
    if s != [] {
      var n := |s| - 1;
      RunStartsMembers(cmp, s[..n]);
      forall i: nat ensures i in RunStarts(cmp, s) <==> StartsRun(cmp, s, i) {
        assert i in RunStarts(cmp, s[..n]) <==> StartsRun(cmp, s[..n], i);
        assert StartsRun(cmp, s[..n], i) <==> StartsRun(cmp, s, i) && i < n;
      }
    }
  }

  /** Of each run of adjacent equal elements exactly the first is kept, in order. */
  lemma {:induction false} RunHeadsAre<T>(cmp: Compare<T>, s: seq<T>)
    ensures var at, heads := RunStarts(cmp, s), RunHeads(cmp, s);
            |heads| == |at| && forall k :: 0 <= k < |at| ==> at[k] < |s| && heads[k] == s[at[k]]
  {
    RunStartsMembers(cmp, s);
    if |s| > 1 {
      var n := |s| - 1;
      RunHeadsAre(cmp, s[..n]);
      forall k | 0 <= k < |RunStarts(cmp, s[..n])| ensures RunHeads(cmp, s[..n])[k] == s[RunStarts(cmp, s[..n])[k]] {
        assert s[..n][RunStarts(cmp, s[..n])[k]] == s[RunStarts(cmp, s[..n])[k]];
      }
    }
  }

  /** On sorted input the run heads increase strictly; the last one equals the last element. */
  lemma {:induction false} RunHeadsStrict<T(!new)>(cmp: Compare<T>, s: seq<T>)
    requires TotalPreorder(cmp) && Sorted(cmp, s)
    ensures StrictlySorted(cmp, RunHeads(cmp, s))
    ensures s != [] ==> RunHeads(cmp, s) != [] && cmp(RunHeads(cmp, s)[|RunHeads(cmp, s)| - 1], s[|s| - 1]) == 0
  {
    if |s| == 1 {
      assert cmp(s[0], s[0]) == 0;
    } else if |s| > 1 {
      var r, x := s[..|s| - 1], s[|s| - 1];
      RunHeadsStrict(cmp, r);
      var h := RunHeads(cmp, r);
      AppendStrict(cmp, h, s[|s| - 2], x);
    }
  }

  lemma AppendStrict<T(!new)>(cmp: Compare<T>, h: seq<T>, last: T, x: T)
    requires TotalPreorder(cmp) && StrictlySorted(cmp, h) && h != []
    requires cmp(h[|h| - 1], last) == 0 && cmp(last, x) <= 0
    ensures cmp(last, x) == 0 ==> cmp(h[|h| - 1], x) == 0
    ensures cmp(last, x) != 0 ==> StrictlySorted(cmp, h + [x])
    ensures cmp(x, x) == 0
  {
    var top := h[|h| - 1];
    assert TransitiveAt(cmp, top, last, x) && TransitiveAt(cmp, x, last, top);
    if cmp(last, x) != 0 {
      forall i | 0 <= i < |h| ensures cmp(h[i], x) < 0 {
        assert i < |h| - 1 ==> cmp(h[i], top) < 0;
        assert TransitiveAt(cmp, x, h[i], top) && TransitiveAt(cmp, x, top, last);
      }
    }
  }

  /** Nothing is kept that was not there. */
  lemma {:induction false} RunHeadsWithin<T>(cmp: Compare<T>, s: seq<T>)
    ensures forall y :: y in RunHeads(cmp, s) ==> y in s
  {
    if |s| > 1 {
      RunHeadsWithin(cmp, s[..|s| - 1]);
    }
  }

  /** Every element equals some head, and every head some element, although heads are dropped by neighbours only. */
  lemma {:induction false} RunHeadsCover<T(!new)>(cmp: Compare<T>, s: seq<T>, y: T)
    requires TotalPreorder(cmp)
    ensures Matches(cmp, s, y) <==> Matches(cmp, RunHeads(cmp, s), y)
  {
    if |s| > 1 {
      var r, x := s[..|s| - 1], s[|s| - 1];
      RunHeadsCover(cmp, r, y);
      MatchesAppend(cmp, r, x, y);
      assert s == r + [x];
      if cmp(s[|s| - 2], x) != 0 {
        MatchesAppend(cmp, RunHeads(cmp, r), x, y);
      } else {
        assert RunHeads(cmp, s) == RunHeads(cmp, r);
        EqualNeighbours(cmp, r, x, y);
      }
    }
  }

  /**
   When only identical elements compare as equal, exactly the elements of the input are kept; on sorted input each
   once.
   */
  lemma UniqElements<T(!new)>(cmp: Compare<T>, s: seq<T>)
    requires TotalPreorder(cmp) && Antisymmetric(cmp)
    ensures forall y :: y in RunHeads(cmp, s) <==> y in s
    ensures Sorted(cmp, s) ==> Distinct(RunHeads(cmp, s))
  {
    var heads := RunHeads(cmp, s);
    RunHeadsWithin(cmp, s);
    forall y | y in s ensures y in heads {
      assert cmp(y, y) == 0;
      assert Matches(cmp, s, y);
      RunHeadsCover(cmp, s, y);
    }
    if Sorted(cmp, s) {
      RunHeadsStrict(cmp, s);
      forall i, j | 0 <= i < j < |heads| ensures heads[i] != heads[j] {
        assert cmp(heads[i], heads[j]) < 0 && cmp(heads[i], heads[i]) == 0;
      }
    }
  }

  lemma EqualNeighbours<T(!new)>(cmp: Compare<T>, r: seq<T>, x: T, y: T)
    requires TotalPreorder(cmp) && r != [] && cmp(r[|r| - 1], x) == 0
    ensures cmp(x, y) == 0 ==> Matches(cmp, r, y)
  {
    var z := r[|r| - 1];
    assert TransitiveAt(cmp, z, x, y) && TransitiveAt(cmp, y, x, z);
  }

  lemma MatchesAppend<T>(cmp: Compare<T>, s: seq<T>, x: T, y: T)
    ensures Matches(cmp, s + [x], y) <==> Matches(cmp, s, y) || cmp(x, y) == 0
  {
    var t := s + [x];
    if Matches(cmp, s, y) {
      var i :| 0 <= i < |s| && cmp(s[i], y) == 0;
      assert t[i] == s[i];
    }
    assert t[|s|] == x;
  }

  // ----- searching

  /** r is the place of x: a match if there is one, otherwise the split between smaller and larger elements. */
  ghost predicate IsPlace<T>(cmp: Compare<T>, s: seq<T>, x: T, r: nat) {
    && r <= |s|
    && if Matches(cmp, s, x) then r < |s| && cmp(s[r], x) == 0
       else (forall i :: 0 <= i < r ==> cmp(s[i], x) < 0) && (forall i :: r <= i < |s| ==> cmp(s[i], x) > 0)
  }

  function InsertAt<T>(s: seq<T>, x: T, i: nat): (longer: seq<T>)
    requires i <= |s|
  {
    s[..i] + [x] + s[i..]
  }

  /** Inserting an element at its place keeps the sequence sorted and adds just that element. */
  lemma InsertAtPlace<T(!new)>(cmp: Compare<T>, s: seq<T>, x: T, r: nat)
    requires TotalPreorder(cmp) && Sorted(cmp, s) && IsPlace(cmp, s, x, r)
    ensures Sorted(cmp, InsertAt(s, x, r))
    ensures multiset(InsertAt(s, x, r)) == multiset(s) + multiset{x}
  {
    assert s == s[..r] + s[r..];
    forall i | 0 <= i < r ensures cmp(s[i], x) <= 0 {
      if Matches(cmp, s, x) {
        assert cmp(s[i], s[r]) <= 0;
        assert TransitiveAt(cmp, s[i], s[r], x);
      }
    }
    forall i | r <= i < |s| ensures cmp(x, s[i]) <= 0 {
      if Matches(cmp, s, x) {
        assert cmp(s[r], s[i]) <= 0;
        assert TransitiveAt(cmp, x, s[r], s[i]);
      }
    }
    assert cmp(x, x) == 0;
    SortedAround(cmp, s, x, r);
  }

  lemma SortedAround<T>(cmp: Compare<T>, s: seq<T>, x: T, r: nat)
    requires Sorted(cmp, s) && r <= |s| && cmp(x, x) == 0
    requires forall i :: 0 <= i < r ==> cmp(s[i], x) <= 0
    requires forall i :: r <= i < |s| ==> cmp(x, s[i]) <= 0
    ensures Sorted(cmp, InsertAt(s, x, r))
  {
    var t := InsertAt(s, x, r);
    forall i, j | 0 <= i <= j < |t| ensures cmp(t[i], t[j]) <= 0 {
      var a, b := if i < r then i else i - 1, if j < r then j else j - 1;
      if i != r && j != r { assert t[i] == s[a] && t[j] == s[b]; }
    }
  }

  /** Without a match there is only one place. */
  lemma PlaceUnique<T>(cmp: Compare<T>, s: seq<T>, x: T, r: nat, q: nat)
    requires !Matches(cmp, s, x) && IsPlace(cmp, s, x, r) && IsPlace(cmp, s, x, q)
    ensures r == q
  {
    var k := if r <= q then r else q;
    assert k < |s| ==> cmp(s[k], x) > 0;
  }

  /** The resumable linear search: skip smaller elements, then answer. */
  ghost function LSearch<T>(cmp: Compare<T>, s: seq<T>, x: T, index: nat): (answer: (bool, nat))
    decreases |s| - index
  {
    if index >= |s| then (false, index)
    else if cmp(s[index], x) < 0 then LSearch(cmp, s, x, index + 1)
    else (cmp(s[index], x) == 0, index)
  }

  /** On any input the search moves past smaller elements only, and stops at the first other one. */
  ghost predicate Stops<T>(cmp: Compare<T>, s: seq<T>, x: T, start: nat, found: bool, index: nat) {
    && start <= index && (start <= |s| ==> index <= |s|) && (start > |s| ==> index == start)
    && (forall i :: start <= i < index && i < |s| ==> cmp(s[i], x) < 0)
    && (found ==> index < |s| && cmp(s[index], x) == 0)
    && (!found ==> index >= |s| || cmp(s[index], x) > 0)
  }

  lemma {:induction false} LSearchStops<T>(cmp: Compare<T>, s: seq<T>, x: T, index: nat)
    ensures Stops(cmp, s, x, index, LSearch(cmp, s, x, index).0, LSearch(cmp, s, x, index).1)
    decreases |s| - index
  {
    if index < |s| && cmp(s[index], x) < 0 {
      LSearchStops(cmp, s, x, index + 1);
    }
  }

  /** A series of searches that carries the index from one to the next. */
  ghost function LSearchSeries<T>(cmp: Compare<T>, s: seq<T>, xs: seq<T>, index: nat): (answers: (seq<bool>, nat)) {
    if xs == [] then ([], index)
    else
      var (found, next) := LSearch(cmp, s, xs[0], index);
      var (rest, last) := LSearchSeries(cmp, s, xs[1..], next);
      ([found] + rest, last)
  }

  /** Everything before this index is smaller than x, and what stands there is not. */
  ghost predicate IsFirstNotBelow<T>(cmp: Compare<T>, s: seq<T>, x: T, index: nat) {
    index <= |s| && (forall i :: 0 <= i < index ==> cmp(s[i], x) < 0) && (index < |s| ==> cmp(s[index], x) >= 0)
  }

  /** One search from an index below which everything is smaller answers as a full search does. */
  lemma {:induction false} LSearchAnswers<T(!new)>(cmp: Compare<T>, s: seq<T>, x: T, index: nat)
    requires TotalPreorder(cmp) && Sorted(cmp, s) && index <= |s|
    requires forall i :: 0 <= i < index ==> cmp(s[i], x) < 0
    ensures var (found, next) := LSearch(cmp, s, x, index);
            && index <= next <= |s|
            && (found <==> Matches(cmp, s, x))
            && IsFirstNotBelow(cmp, s, x, next)
    decreases |s| - index
  {
    if index < |s| {
      if cmp(s[index], x) < 0 {
        LSearchAnswers(cmp, s, x, index + 1);
      } else if cmp(s[index], x) > 0 {
        forall i | 0 <= i < |s| ensures cmp(s[i], x) != 0 {
          assert i >= index ==> cmp(s[index], s[i]) <= 0;
          assert TransitiveAt(cmp, s[index], s[i], x);
        }
      }
    }
  }

  /**
   Searching for a nondecreasing series of values with one carried index answers every membership question. The
   index moves forward at most |s| times over the whole series and ends at the first element not below the last value.
   */
  lemma {:induction false} LSearchSeriesAnswers<T(!new)>(cmp: Compare<T>, s: seq<T>, xs: seq<T>, index: nat)
    requires TotalPreorder(cmp) && Sorted(cmp, s) && Sorted(cmp, xs) && index <= |s|
    requires xs != [] ==> forall i :: 0 <= i < index ==> cmp(s[i], xs[0]) < 0
    ensures var (answers, last) := LSearchSeries(cmp, s, xs, index);
            && |answers| == |xs|
            && index <= last <= |s|
            && (forall k :: 0 <= k < |xs| ==> (answers[k] <==> Matches(cmp, s, xs[k])))
            && if xs == [] then last == index else IsFirstNotBelow(cmp, s, xs[|xs| - 1], last)
    decreases |xs|
  {
    if xs != [] {
      LSearchAnswers(cmp, s, xs[0], index);
      var (found, next) := LSearch(cmp, s, xs[0], index);
      if |xs| > 1 {
        forall i | 0 <= i < next ensures cmp(s[i], xs[1]) < 0 {
          assert cmp(s[i], xs[0]) < 0 && cmp(xs[0], xs[1]) <= 0;
          assert TransitiveAt(cmp, xs[0], xs[1], s[i]);
        }
      }
      SortedTail(cmp, xs);
      LSearchSeriesAnswers(cmp, s, xs[1..], next);
    }
  }
}
