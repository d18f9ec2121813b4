/** The generic growable array: every operation refines a function of the sequence it holds. */
module Vector {
  import opened SortedSeqs

  // ----- capacity

  /** The capacity after making room for one more element; the growth factor 3/2 divides as C does. */
  function Grown(alloc: nat): (r: nat)
    ensures r > alloc
  {
    if alloc + 1 > alloc * 3 / 2 then alloc + 1 else alloc * 3 / 2
  }

  /** Size, capacity and elements moved by reallocation so far. */
  datatype Usage = Usage(num: nat, alloc: nat, copied: nat)

  /** What one append does to them; capacity 0 stands for a vector without storage. */
  function Appended(u: Usage): (v: Usage) {
    if u.alloc == 0 then Usage(1, 32, u.copied)
    else if u.num == u.alloc then Usage(u.num + 1, Grown(u.alloc), u.copied + u.num)
    else u.(num := u.num + 1)
  }

  function AppendedTimes(n: nat): (u: Usage) {
    if n == 0 then Usage(0, 0, 0) else Appended(AppendedTimes(n - 1))
  }

  /** Appending n elements to a fresh vector moves at most 3.1 n elements in all, so an append costs a constant. */
  lemma {:induction false} AppendsAreAmortised(n: nat)
    ensures var u := AppendedTimes(n);
            && u.num == n
            && 10 * u.copied <= 31 * n
            && (n > 0 ==> 32 <= u.alloc && n <= u.alloc && 10 * u.copied + 640 <= 21 * u.alloc)
  {
    if n > 0 {
      AppendsAreAmortised(n - 1);
    }
  }

  // ----- the vector

  class Vector<T(!new, 0)> {
    var values: array?<T>
    var num: nat
    var alloc: nat
    ghost var copied: nat

    ghost predicate Valid()
      reads this, values
    {
      if values == null then num == 0 && alloc == 0
      else values.Length == alloc && num <= alloc && alloc > 0
    }

    ghost function Contents(): (s: seq<T>)
      reads this, values
      requires Valid()
    {
      if values == null then [] else values[..num]
    }

    ghost function Use(): (u: Usage)
      reads this
    {
      Usage(num, alloc, copied)
    }

    constructor Create()
      ensures Valid() && Contents() == [] && Use() == Usage(0, 0, 0)
    {
      values, num, alloc, copied := null, 0, 0, 0;
    }

    /** realloc: new storage holding the elements of the old one. */
    method Realloc(size: nat)
      requires Valid() && size > alloc
      modifies this
      ensures Valid() && alloc == size && num == old(num) && Contents() == old(Contents())
      ensures values != null && fresh(values) && copied == old(copied) + num
    {
      var data := new T[size];
      if values != null {
        forall i | 0 <= i < num { data[i] := values[i]; }
      }
      copied := copied + num;
      values, alloc := data, size;
    }

    method EnsureFreeSpace()
      requires Valid()
      modifies this
      ensures Valid() && values != null && num < alloc && Contents() == old(Contents())
      ensures num == old(num) && Use().(num := num + 1) == Appended(old(Use()))
      ensures old(num) < old(alloc) ==> alloc == old(alloc) && values == old(values)
      ensures old(values) == null ==> alloc == 32
      ensures old(values) != null && old(num) == old(alloc) ==>
                alloc > old(alloc) && (2 * alloc <= 3 * old(alloc) < 2 * alloc + 2
                  || alloc == old(alloc) + 1 > 3 * old(alloc) / 2)
      ensures values == old(values) || fresh(values)
    {
      if values == null {
        num := 0;
        alloc := 32;
        values := new T[32];
      } else if num == alloc {
        Realloc(Grown(alloc));
      }
    }

    method Append(value: T)
      requires Valid()
      modifies this, values
      ensures Valid() && Contents() == old(Contents()) + [value]
      ensures Use() == Appended(old(Use()))
      ensures values != null && (values == old(values) || fresh(values))
    {
      EnsureFreeSpace();
      values[num] := value;
      num := num + 1;
    }

    /** memmove within the storage: the source is read before anything is written. */
    method MoveBlock(to: nat, from: nat, n: nat)
      requires values != null && to + n <= values.Length && from + n <= values.Length
      modifies values
      ensures forall i :: 0 <= i < values.Length ==>
                values[i] == old(values[if to <= i < to + n then from + i - to else i])
    {
      forall i | 0 <= i < n { values[to + i] := values[from + i]; }
    }

    method Insert(value: T, beforeIndex: nat)
      requires Valid() && beforeIndex <= num
      modifies this, values
      ensures Valid() && Contents() == InsertAt(old(Contents()), value, beforeIndex)
      ensures Use() == Appended(old(Use()))
      ensures values != null && (values == old(values) || fresh(values))
    {
      EnsureFreeSpace();
      ghost var s := Contents();
      OpenSlot(beforeIndex, value, s);
      num := num + 1;
      values[beforeIndex] := value;
      assert Contents() == values[..num - 1 + 1][beforeIndex := value];
    }

    /** Moves the elements from beforeIndex on up by one. */
    method OpenSlot(beforeIndex: nat, ghost value: T, ghost s: seq<T>)
      requires Valid() && values != null && beforeIndex <= num < alloc && s == Contents()
      modifies values
      ensures values[..num + 1][beforeIndex := value] == InsertAt(s, value, beforeIndex)
    {
      if 0 < num - beforeIndex {
        MoveBlock(beforeIndex + 1, beforeIndex, num - beforeIndex);
      }
      ghost var t := values[..num + 1][beforeIndex := value];
      assert |t| == |s| + 1 && forall k :: 0 <= k <= num && k != beforeIndex ==> t[k] == values[k];
      assert forall k :: 0 <= k < beforeIndex ==> t[k] == s[k];
      assert forall k :: beforeIndex < k <= |s| ==> t[k] == s[k - 1];
      Inserted(t, s, value, beforeIndex);
    }

    method Reserve(size: nat)
      requires Valid()
      modifies this
      ensures Valid() && Contents() == old(Contents()) && num == old(num)
      ensures alloc == if size > old(alloc) then size else old(alloc)
      ensures values == old(values) || fresh(values)
    {
      if size > alloc {
        Realloc(size);
      }
    }

    method AppendArray(src: seq<T>)
      requires Valid()
      modifies this, values
      ensures Valid() && Contents() == old(Contents()) + src
      ensures alloc == if num > old(alloc) then num else old(alloc)
    {
      if |src| == 0 {
        return;
      }
      Reserve(num + |src|);
      forall i | 0 <= i < |src| { values[num + i] := src[i]; }
      num := num + |src|;
    }

    /** Removing at a missing index ends the program; ok is false and nothing has changed. */
    method RemoveNoOrder(index: int) returns (ok: bool)
      requires Valid()
      modifies this, values
      ensures Valid() && ok == (0 <= index < old(num)) && values == old(values) && alloc == old(alloc)
      ensures !ok ==> Contents() == old(Contents())
      ensures ok ==> var s := old(Contents()); Contents() == s[index := s[|s| - 1]][..|s| - 1]
    {
      ok := 0 <= index < num;
      if ok {
        num := num - 1;
        values[index] := values[num];
      }
    }

    method Remove(index: int) returns (ok: bool)
      requires Valid()
      modifies this, values
      ensures Valid() && ok == (0 <= index < old(num)) && values == old(values) && alloc == old(alloc)
      ensures !ok ==> Contents() == old(Contents())
      ensures ok ==> var s := old(Contents()); Contents() == s[..index] + s[index + 1..]
    {
      ok := 0 <= index < num;
      if ok {
        num := num - 1;
        MoveBlock(index, index + 1, num - index);
      }
    }

    /** Overwrites the array it is comparing, and still compares original neighbours. */
    method Uniq(cmp: Compare<T>)
      requires Valid()
      modifies this, values
      ensures Valid() && values == old(values) && alloc == old(alloc)
      ensures Contents() == RunHeads(cmp, old(Contents()))
    {
      if 2 <= num {
        ghost var s := Contents();
        var i, j := 1, 1;
        while i < num
          invariant values != null && values == old(values)
          invariant 1 <= j <= i <= num == |s| && alloc == values.Length
          invariant values[..j] == RunHeads(cmp, s[..i])
          invariant forall k :: j <= k < num ==> values[k] == s[k]
          invariant values[i - 1] == s[i - 1]
        {
          RunHeadsStep(cmp, s, i);
          if cmp(values[i - 1], values[i]) != 0 {
            values[j] := values[i];
            j := j + 1;
          }
          i := i + 1;
        }
        assert s[..i] == s;
        num := j;
      }
    }

    method NearestIndex(cmp: Compare<T>, value: T) returns (r: nat)
      requires Valid() && TotalPreorder(cmp) && Sorted(cmp, Contents())
      ensures IsPlace(cmp, Contents(), value, r)
    {
      var lo, hi := 0, num;
      while 1 <= hi - lo
        invariant 0 <= lo <= hi <= num
        invariant forall i :: 0 <= i < lo ==> cmp(Contents()[i], value) < 0
        invariant forall i :: hi <= i < num ==> cmp(Contents()[i], value) > 0
        decreases hi - lo
      {
        var mid := (lo + hi) / 2;
        assert values[mid] == Contents()[mid];
        var c := cmp(values[mid], value);
        if 0 > c {
          forall i | 0 <= i <= mid ensures cmp(Contents()[i], value) < 0 {
            Below(cmp, Contents(), value, i, mid);
          }
          lo := mid + 1;
        } else if 0 == c {
          assert cmp(Contents()[mid], value) == 0;
          return mid;
        } else {
          forall i | mid <= i < num ensures cmp(Contents()[i], value) > 0 {
            Above(cmp, Contents(), value, mid, i);
          }
          hi := mid;
        }
      }
      return hi;
    }

    /** The resumable search; the caller keeps the index between calls. */
    method LSearchFrom(cmp: Compare<T>, value: T, start: nat) returns (found: bool, index: nat)
      requires Valid()
      ensures (found, index) == LSearch(cmp, Contents(), value, start)
      ensures start <= index && forall i :: start <= i < index && i < num ==> cmp(Contents()[i], value) < 0
      ensures found ==> index < num && cmp(Contents()[index], value) == 0
      ensures !found ==> index >= num || cmp(Contents()[index], value) > 0
    {
      index := start;
      LSearchStops(cmp, Contents(), value, start);
      while index < num
        invariant LSearch(cmp, Contents(), value, index) == LSearch(cmp, Contents(), value, start)
        decreases num - index
      {
        assert values[index] == Contents()[index];
        var c := cmp(values[index], value);
        if 0 > c {
          index := index + 1;
          continue;
        }
        if 0 == c {
          return true, index;
        }
        if 0 < c {
          break;
        }
      }
      return false, index;
    }

    /** The first matching index by linear search, or -1 (FAIL). */
    method Search(cmp: Compare<T>, value: T) returns (index: int)
      requires Valid()
      ensures index == -1 ==> !Matches(cmp, Contents(), value)
      ensures index != -1 ==> 0 <= index < num && cmp(Contents()[index], value) == 0
                              && forall i :: 0 <= i < index ==> cmp(Contents()[i], value) != 0
    {
      for i := 0 to num
        invariant forall k :: 0 <= k < i ==> cmp(Contents()[k], value) != 0
      {
        assert values[i] == Contents()[i];
        if 0 == cmp(values[i], value) {
          return i;
        }
      }
      return -1;
    }

    /**
     Removes from this sorted vector one element for each equal one of right, which may be this vector. Surviving
     blocks are moved down one by one, while later elements are still being compared where they are.
     */
    method SetDifference(right: Vector<T>, cmp: Compare<T>)
      requires Valid() && right.Valid() && OwnStorage(right)
      requires right == this ==> forall x :: x in Contents() ==> cmp(x, x) == 0
      modifies this, values
      ensures Valid() && values == old(values) && alloc == old(alloc)
      ensures right != this ==> right.Valid() && right.Contents() == old(right.Contents())
      ensures Contents() == SetDiff(cmp, old(Contents()), old(right.Contents()))
    {
      ghost var l, r := Contents(), right.Contents();
      MergeRunIsSetDiff(cmp, l, r, [], 0, 0, 0);
      assert l[0..] == l && r[0..] == r && l[0..0] == [];
      var blockStart, deleted, kept := CompareAndMove(right, cmp, l, r);
      MoveTail(blockStart, deleted, l, kept);
    }

    /** A vector shares its storage with no other vector. */
    ghost predicate OwnStorage(right: Vector<T>)
      reads this, right
    {
      right != this && values != null ==> values != right.values
    }

    /** The comparing loop; what survives is then kept at the front and the block from blockStart to the end. */
    method CompareAndMove(right: Vector<T>, cmp: Compare<T>, ghost l: seq<T>, ghost r: seq<T>)
      returns (blockStart: nat, deleted: nat, ghost kept: seq<T>)
      requires Valid() && right.Valid() && OwnStorage(right)
      requires right == this ==> forall x :: x in Contents() ==> cmp(x, x) == 0
      requires l == Contents() && r == right.Contents()
      modifies values
      ensures Valid() && right.Valid() && right.Contents() == r
      ensures |kept| == blockStart - deleted && (deleted == 0 ==> blockStart == 0)
      ensures Gapped(Contents(), kept, l, blockStart)
      ensures MergeRun(cmp, l, r, [], 0, 0, 0) == kept + l[blockStart..]
    {
      ghost var goal := MergeRun(cmp, l, r, [], 0, 0, 0);
      kept := [];
      var leftIndex, rightIndex := 0, 0;
      blockStart, deleted := 0, 0;
      while leftIndex < num && rightIndex < right.num
        invariant Valid() && right.Valid() && right.Contents() == r
        invariant blockStart <= leftIndex <= |l| && rightIndex <= |r|
        invariant MergeRun(cmp, l, r, kept, blockStart, leftIndex, rightIndex) == goal
        invariant |kept| == blockStart - deleted && (deleted == 0 ==> blockStart == 0)
        invariant Gapped(Contents(), kept, l, blockStart)
        invariant right == this ==> leftIndex == rightIndex == blockStart == deleted && Contents() == l
        decreases num - leftIndex + right.num - rightIndex
      {
        var c := CompareAt(right, cmp, leftIndex, rightIndex, l, r, kept, blockStart);
        if 0 >= c {
          leftIndex := leftIndex + 1;
        }
        if 0 <= c {
          rightIndex := rightIndex + 1;
        }
        if 0 != c {
          continue;
        }
        kept := DropMatched(blockStart, deleted, leftIndex, l, kept);
        deleted := deleted + 1;
        blockStart := leftIndex;
      }
    }

    /** The elements compared are the original ones, whatever has been moved so far. */
    method CompareAt(right: Vector<T>, cmp: Compare<T>, leftIndex: nat, rightIndex: nat,
                     ghost l: seq<T>, ghost r: seq<T>, ghost kept: seq<T>, ghost blockStart: nat) returns (c: int)
      requires Valid() && right.Valid() && right.Contents() == r && leftIndex < num && rightIndex < right.num
      requires Gapped(Contents(), kept, l, blockStart) && blockStart <= leftIndex < |l|
      ensures rightIndex < |r| && c == cmp(l[leftIndex], r[rightIndex])
    {
      StillThere(Contents(), kept, l, blockStart, leftIndex);
      c := cmp(values[leftIndex], right.values[rightIndex]);
    }

    /** The last block is moved and the length reduced. */
    method MoveTail(blockStart: nat, deleted: nat, ghost l: seq<T>, ghost kept: seq<T>)
      requires Valid() && |l| == num && |kept| == blockStart - deleted && (deleted == 0 ==> blockStart == 0)
      requires Gapped(Contents(), kept, l, blockStart)
      modifies this`num, values
      ensures Valid() && Contents() == kept + l[blockStart..]
    {
      if 0 < deleted {
        CloseGap(blockStart - deleted, blockStart, num, l, kept);
        ghost var v := Contents();
        FilledToEnd(v, kept, l, blockStart);
        num := num - deleted;
        assert Contents() == v[..num];
      } else {
        NothingDropped(Contents(), l);
        assert l[0..] == l && kept + l == l;
      }
    }

    /** The element before leftIndex was matched: the block before it joins those kept. */
    method DropMatched(blockStart: nat, deleted: nat, leftIndex: nat, ghost l: seq<T>, ghost kept: seq<T>)
      returns (ghost joined: seq<T>)
      requires Valid() && values != null && deleted <= blockStart < leftIndex <= num
      requires |kept| == blockStart - deleted && (deleted == 0 ==> blockStart == 0)
      requires Gapped(Contents(), kept, l, blockStart)
      modifies values
      ensures Valid() && joined == kept + l[blockStart..leftIndex - 1] && Gapped(Contents(), joined, l, leftIndex)
      ensures |joined| == leftIndex - (deleted + 1)
      ensures blockStart == leftIndex - 1 ==> Contents() == old(Contents())
    {
      if 0 < deleted {
        CloseGap(blockStart - deleted, blockStart, leftIndex - 1, l, kept);
      }
      GapAfter(Contents(), kept, l, blockStart, leftIndex);
      joined := kept + l[blockStart..leftIndex - 1];
    }

    /** Moves the block of survivors l[from..end] down behind those kept already. */
    method CloseGap(to: nat, from: nat, end: nat, ghost l: seq<T>, ghost kept: seq<T>)
      requires Valid() && values != null && to == |kept| && from <= end <= num
      requires Gapped(Contents(), kept, l, from)
      modifies values
      ensures Valid() && Filled(Contents(), kept, l, from, end)
      ensures from == end ==> Contents() == old(Contents())
    {
      ghost var v := Contents();
      MoveBlock(to, from, end - from);
      assert forall k :: to <= k < to + end - from ==> Contents()[k] == v[from + k - to];
      assert forall k :: 0 <= k < num && !(to <= k < to + end - from) ==> Contents()[k] == v[k];
      MovedBlock(v, Contents(), kept, l, from, end);
    }

    method Clear()
      requires Valid()
      modifies this
      ensures Valid() && Contents() == [] && values == old(values) && alloc == old(alloc)
    {
      num := 0;
    }
  }

  ghost predicate Same<T>(v: seq<T>, w: seq<T>, k: nat) {
    k < |v| && k < |w| && v[k] == w[k]
  }

  ghost predicate StartsWith<T>(v: seq<T>, w: seq<T>) {
    forall k: nat {:trigger Same(v, w, k)} :: k < |w| ==> Same(v, w, k)
  }

  ghost predicate SameFrom<T>(v: seq<T>, w: seq<T>, b: nat) {
    forall k: nat {:trigger Same(v, w, k)} :: b <= k < |w| ==> Same(v, w, k)
  }

  /** kept has been moved to the front, and from b on the elements are still where they were. */
  ghost predicate Gapped<T>(v: seq<T>, kept: seq<T>, l: seq<T>, b: nat) {
    && |kept| <= b <= |l| == |v| && StartsWith(v, kept) && SameFrom(v, l, b)
  }

  /** The same after the block l[b..e] has joined those kept, with everything from e on untouched. */
  ghost predicate Filled<T>(v: seq<T>, kept: seq<T>, l: seq<T>, b: nat, e: nat) {
    && |kept| <= b <= e <= |l| == |v| && StartsWith(v, kept + l[b..e]) && SameFrom(v, l, e)
  }

  lemma StillThere<T>(v: seq<T>, kept: seq<T>, l: seq<T>, b: nat, i: nat)
    requires Gapped(v, kept, l, b) && b <= i < |l|
    ensures v[i] == l[i]
  {
    assert Same(v, l, i);
  }

  lemma MovedBlock<T>(v: seq<T>, w: seq<T>, kept: seq<T>, l: seq<T>, b: nat, e: nat)
    requires Gapped(v, kept, l, b) && b <= e <= |l| && |w| == |v|
    requires forall k :: |kept| <= k < |kept| + e - b ==> w[k] == v[b + k - |kept|]
    requires forall k :: 0 <= k < |w| && !(|kept| <= k < |kept| + e - b) ==> w[k] == v[k]
    ensures Filled(w, kept, l, b, e)
  {
    forall k: nat | k < |kept| + e - b ensures Same(w, kept + l[b..e], k) {
      assert k < |kept| ==> Same(v, kept, k);
      assert k >= |kept| ==> Same(v, l, b + k - |kept|);
    }
    forall k: nat | e <= k < |w| ensures Same(w, l, k) {
      assert Same(v, l, k);
    }
  }

  /** The matched element at e - 1 is dropped: its place becomes part of the gap. */
  lemma GapAfter<T>(v: seq<T>, kept: seq<T>, l: seq<T>, b: nat, e: nat)
    requires b < e <= |l|
    requires Filled(v, kept, l, b, e - 1) || (b == 0 && kept == [] && Gapped(v, kept, l, b))
    ensures Gapped(v, kept + l[b..e - 1], l, e)
  {
    var joined := kept + l[b..e - 1];
    forall k: nat | k < |joined| ensures Same(v, joined, k) {
      assert b == 0 && kept == [] && Gapped(v, kept, l, b) ==> Same(v, l, k);
    }
  }

  lemma FilledToEnd<T>(v: seq<T>, kept: seq<T>, l: seq<T>, b: nat)
    requires Filled(v, kept, l, b, |l|)
    ensures v[..|kept| + |l| - b] == kept + l[b..]
  {
    var joined := kept + l[b..];
    assert l[b..|l|] == l[b..];
    forall k: nat | k < |joined| ensures v[k] == joined[k] {
      assert Same(v, joined, k);
    }
  }

  lemma NothingDropped<T>(v: seq<T>, l: seq<T>)
    requires Gapped(v, [], l, 0)
    ensures v == l
  {
    forall k: nat | k < |l| ensures v[k] == l[k] {
      assert Same(v, l, k);
    }
  }

  lemma Inserted<T>(t: seq<T>, s: seq<T>, x: T, r: nat)
    requires r <= |s| && |t| == |s| + 1 && t[r] == x
    requires forall k :: 0 <= k < r ==> t[k] == s[k]
    requires forall k :: r < k <= |s| ==> t[k] == s[k - 1]
    ensures t == InsertAt(s, x, r)
  {
  }

  lemma Below<T(!new)>(cmp: Compare<T>, s: seq<T>, x: T, i: nat, mid: nat)
    requires TotalPreorder(cmp) && Sorted(cmp, s) && i <= mid < |s| && cmp(s[mid], x) < 0
    ensures cmp(s[i], x) < 0
  {
    assert cmp(s[i], s[mid]) <= 0;
    assert TransitiveAt(cmp, x, s[i], s[mid]);
  }

  lemma Above<T(!new)>(cmp: Compare<T>, s: seq<T>, x: T, mid: nat, i: nat)
    requires TotalPreorder(cmp) && Sorted(cmp, s) && mid <= i < |s| && cmp(s[mid], x) > 0
    ensures cmp(s[i], x) > 0
  {
    assert cmp(s[mid], s[i]) <= 0;
    assert TransitiveAt(cmp, s[mid], s[i], x);
  }
}
