/**
  Merge-sort inversion counting (count-inversions.h).

  An inversion of a sequence `s` is a pair of positions `i < j` with
  `s[i] > s[j]`. The routine sorts a copy of the input by merge sort and, while
  merging, counts how many elements of the left half each element of the right
  half jumps over.
 */
module CountInversions {

  import Sequences

  /** The value returned by every routine: the sorted elements and the number of
      inversions found. `n_inversions` is a `size_t` in the source; here it is
      unbounded (see README). */
  datatype CountInversionsResult = CountInversionsResult(arr: seq<int>, nInversions: nat)

  ghost predicate Sorted(s: seq<int>) {
    forall i, j :: 0 <= i < j < |s| ==> s[i] <= s[j]
  }

  // ---------------------------------------------------------------------------
  // Reference definitions of the counts, independent of merge sort
  // ---------------------------------------------------------------------------

  /** Number of elements of `a` that are greater than `x`. */
  function CountGreater(a: seq<int>, x: int): (n: nat)
    ensures n <= |a|
  {
    if a == [] then 0
    else CountGreater(a[..|a| - 1], x) + (if a[|a| - 1] > x then 1 else 0)
  }

  /** Number of pairs `(i, j)` with `a[i] > b[j]`: each element of `b` is
      jumped over by the elements of `a` greater than it. */
  function CrossInversions(a: seq<int>, b: seq<int>): (n: nat)
    ensures n <= |a| * |b|
  {
    if b == [] then 0
    else CrossInversions(a, b[..|b| - 1]) + CountGreater(a, b[|b| - 1])
  }

  /** Number of pairs `i < j` with `s[i] > s[j]`: every element is counted
      against the elements before it that are greater. */
  function Inversions(s: seq<int>): nat
  {
    if s == [] then 0
    else Inversions(s[..|s| - 1]) + CountGreater(s[..|s| - 1], s[|s| - 1])
  }

  /** The same counts as sets of index pairs. */
  ghost function InvertedPairs(s: seq<int>): set<(int, int)>
  {
    set i, j | 0 <= i < j < |s| && s[i] > s[j] :: (i, j)
  }

  ghost function CrossPairs(a: seq<int>, b: seq<int>): set<(int, int)>
  {
    set i, j | 0 <= i < |a| && 0 <= j < |b| && a[i] > b[j] :: (i, j)
  }

  // ---------------------------------------------------------------------------
  // The merge step, as a function: the specification of CountInversionsSplit
  // ---------------------------------------------------------------------------

  /** Two-pointer merge of `a` and `b`: on a tie the element of `a` is taken
      first; taking the head of `b` adds the number of elements still left in
      `a`. When one side runs out, the rest of the other is appended. */
  function MergeCount(a: seq<int>, b: seq<int>): (r: CountInversionsResult)
    ensures |r.arr| == |a| + |b|
    decreases |a| + |b|
  {
    if a == [] then CountInversionsResult(b, 0)
    else if b == [] then CountInversionsResult(a, 0)
    else if a[0] <= b[0] then
      var t := MergeCount(a[1..], b);
      CountInversionsResult([a[0]] + t.arr, t.nInversions)
    else
      var t := MergeCount(a, b[1..]);
      CountInversionsResult([b[0]] + t.arr, t.nInversions + |a|)
  }

  /** The merge is a permutation of its two inputs together. */
  lemma {:induction false} MergeCountPerm(a: seq<int>, b: seq<int>)
    ensures multiset(MergeCount(a, b).arr) == multiset(a) + multiset(b)
    decreases |a| + |b|
  {
    if a != [] && b != [] {
      if a[0] <= b[0] {
        MergeCountTakeLeft(a, b);
        MergeCountPerm(a[1..], b);
        assert a == [a[0]] + a[1..];
        assert multiset([a[0]] + MergeCount(a[1..], b).arr) == multiset{a[0]} + multiset(MergeCount(a[1..], b).arr);
      } else {
        MergeCountTakeRight(a, b);
        MergeCountPerm(a, b[1..]);
        assert b == [b[0]] + b[1..];
        assert multiset([b[0]] + MergeCount(a, b[1..]).arr) == multiset{b[0]} + multiset(MergeCount(a, b[1..]).arr);
      }
    }
  }

  /** The merge takes the head of `a` when it is not greater than the head of `b`. */
  lemma MergeCountTakeLeft(a: seq<int>, b: seq<int>)
    requires a != [] && b != [] && a[0] <= b[0]
    ensures MergeCount(a, b)
         == CountInversionsResult([a[0]] + MergeCount(a[1..], b).arr, MergeCount(a[1..], b).nInversions)
  {
  }

  /** Otherwise it takes the head of `b` and counts the `|a|` elements it passes. */
  lemma MergeCountTakeRight(a: seq<int>, b: seq<int>)
    requires a != [] && b != [] && a[0] > b[0]
    ensures MergeCount(a, b)
         == CountInversionsResult([b[0]] + MergeCount(a, b[1..]).arr, MergeCount(a, b[1..]).nInversions + |a|)
  {
  }

  /** CountInversionsSplit_: merges two sequences into a buffer of size
      `|arr1| + |arr2|` with two read positions and one write position, then
      copies the rest of whichever side is left. */
  method CountInversionsSplit(arr1: seq<int>, arr2: seq<int>) returns (res: CountInversionsResult)
    ensures res == MergeCount(arr1, arr2)
    ensures |res.arr| == |arr1| + |arr2|
    ensures multiset(res.arr) == multiset(arr1 + arr2)
    ensures Sorted(arr1) && Sorted(arr2) ==> Sorted(res.arr)
    ensures Sorted(arr1) && Sorted(arr2) ==> res.nInversions == |CrossPairs(arr1, arr2)|
  {
    var buf := new int[|arr1| + |arr2|];
    var it1, it2 := 0, 0;
    var n: nat := 0;
    ghost var total := MergeFrom(arr1, arr2, 0, 0);
    while it1 != |arr1| && it2 != |arr2|
      invariant 0 <= it1 <= |arr1| && 0 <= it2 <= |arr2|
      invariant MergeFrom(arr1, arr2, it1, it2).arr == total.arr[it1 + it2..]
      invariant forall j :: 0 <= j < it1 + it2 ==> buf[j] == total.arr[j]
      invariant n + MergeFrom(arr1, arr2, it1, it2).nInversions == total.nInversions
      decreases |arr1| + |arr2| - it1 - it2
    {
      MergeFromStep(arr1, arr2, it1, it2, total.arr);
      if arr1[it1] <= arr2[it2] {
        buf[it1 + it2] := arr1[it1];
        it1 := it1 + 1;
      } else {
        buf[it1 + it2] := arr2[it2];
        n := n + (|arr1| - it1);
        it2 := it2 + 1;
      }
    }
    CopyRest(arr1, arr2, it1, it2, buf);
    res := CountInversionsResult(buf[..], n);
    MergeFromFacts(arr1, arr2);
  }

  /** The two copies after the merge loop of CountInversionsSplit_: once one
      side is exhausted, the rest of the other side fills the end of the
      buffer, which then holds the whole merge. */
  method CopyRest(arr1: seq<int>, arr2: seq<int>, it1: nat, it2: nat, buf: array<int>)
    requires it1 <= |arr1| && it2 <= |arr2| && (it1 == |arr1| || it2 == |arr2|)
    requires buf.Length == |arr1| + |arr2|
    requires forall j :: 0 <= j < it1 + it2 ==> buf[j] == MergeFrom(arr1, arr2, 0, 0).arr[j]
    requires MergeFrom(arr1, arr2, it1, it2).arr == MergeFrom(arr1, arr2, 0, 0).arr[it1 + it2..]
    modifies buf
    ensures buf[..] == MergeFrom(arr1, arr2, 0, 0).arr
  {
    ghost var total := MergeFrom(arr1, arr2, 0, 0).arr;
    ghost var done := buf[..it1 + it2];
    assert done == total[..it1 + it2];
    if it1 == |arr1| {
      CopyTail(arr2, it2, buf, it1 + it2);
    } else {
      CopyTail(arr1, it1, buf, it1 + it2);
    }
    assert buf[..] == done + total[it1 + it2..];
  }

  /** What the loop of CountInversionsSplit computes, MergeFrom from the
      start, is the merge, and for sorted inputs its count is the number of
      cross pairs. */
  lemma MergeFromFacts(arr1: seq<int>, arr2: seq<int>)
    ensures MergeFrom(arr1, arr2, 0, 0) == MergeCount(arr1, arr2)
    ensures multiset(MergeCount(arr1, arr2).arr) == multiset(arr1 + arr2)
    ensures Sorted(arr1) && Sorted(arr2) ==> Sorted(MergeCount(arr1, arr2).arr)
    ensures Sorted(arr1) && Sorted(arr2) ==>
      MergeCount(arr1, arr2).nInversions == |CrossPairs(arr1, arr2)|
  {
    MergeFromIsMerge(arr1, arr2, 0, 0);
    MergeCountPerm(arr1, arr2);
    assert arr1[0..] == arr1 && arr2[0..] == arr2;
    if Sorted(arr1) && Sorted(arr2) {
      MergeSorted(arr1, arr2);
      MergeCountsCross(arr1, arr2);
      CrossInversionsArePairs(arr1, arr2);
    }
  }

  /** MergeCount of the suffixes `a[i..]` and `b[j..]`, written over positions
      so that the loop of CountInversionsSplit can be stated without slices. */
  ghost function MergeFrom(a: seq<int>, b: seq<int>, i: nat, j: nat): (r: CountInversionsResult)
    requires i <= |a| && j <= |b|
    ensures |r.arr| == |a| - i + |b| - j
    decreases |a| - i + |b| - j
  {
    if i == |a| then CountInversionsResult(b[j..], 0)
    else if j == |b| then CountInversionsResult(a[i..], 0)
    else if a[i] <= b[j] then
      var t := MergeFrom(a, b, i + 1, j);
      CountInversionsResult([a[i]] + t.arr, t.nInversions)
    else
      var t := MergeFrom(a, b, i, j + 1);
      CountInversionsResult([b[j]] + t.arr, t.nInversions + (|a| - i))
  }

  /** One step of the merge loop: the next output element is the smaller
      head (the left one on a tie) and the rest is MergeFrom one position on. */
  lemma MergeFromStep(a: seq<int>, b: seq<int>, i: nat, j: nat, total: seq<int>)
    requires i < |a| && j < |b| && i + j <= |total|
    requires MergeFrom(a, b, i, j).arr == total[i + j..]
    ensures a[i] <= b[j] ==>
              && total[i + j] == a[i]
              && MergeFrom(a, b, i + 1, j).arr == total[i + j + 1..]
              && MergeFrom(a, b, i + 1, j).nInversions == MergeFrom(a, b, i, j).nInversions
    ensures a[i] > b[j] ==>
              && total[i + j] == b[j]
              && MergeFrom(a, b, i, j + 1).arr == total[i + j + 1..]
              && MergeFrom(a, b, i, j + 1).nInversions + (|a| - i) == MergeFrom(a, b, i, j).nInversions
  {
    assert total[i + j..][1..] == total[i + j + 1..];
  }

  /** MergeFrom is MergeCount on the suffixes. */
  lemma {:induction false} MergeFromIsMerge(a: seq<int>, b: seq<int>, i: nat, j: nat)
    requires i <= |a| && j <= |b|
    ensures MergeFrom(a, b, i, j) == MergeCount(a[i..], b[j..])
    decreases |a| - i + |b| - j
  {
    if i < |a| && j < |b| {
      assert a[i..][1..] == a[i + 1..] && b[j..][1..] == b[j + 1..];
      if a[i] <= b[j] {
        MergeFromIsMerge(a, b, i + 1, j);
      } else {
        MergeFromIsMerge(a, b, i, j + 1);
      }
    }
  }

  /** std::copy of `src[from..]` into `buf` from position `at`, filling `buf`
      to its end. */
  method CopyTail(src: seq<int>, from: nat, buf: array<int>, at: nat)
    requires from <= |src| && at + (|src| - from) == buf.Length
    modifies buf
    ensures buf[..] == old(buf[..at]) + src[from..]
  {
    var i, k := from, at;
    while i < |src|
      invariant from <= i <= |src| && k == at + (i - from)
      invariant buf[..k] == old(buf[..at]) + src[from..i]
    {
      assert src[from..i + 1] == src[from..i] + [src[i]];
      buf[k] := src[i];
      assert buf[..k + 1] == buf[..k] + [src[i]];
      i, k := i + 1, k + 1;
    }
    assert buf[..] == buf[..k];
  }

  // ---------------------------------------------------------------------------
  // The recursive divide step and the public entry point
  // ---------------------------------------------------------------------------

  /** CountInversions_: a range of fewer than two elements is copied with no
      inversions; otherwise both halves (split at `size / 2`) are counted
      recursively and merged, and the three counts are added. */
  function CountInversionsRec(s: seq<int>): (r: CountInversionsResult)
    ensures |s| < 2 ==> r == CountInversionsResult(s, 0)
    ensures multiset(r.arr) == multiset(s)
    ensures Sorted(r.arr)
    ensures r.nInversions == Inversions(s)
    decreases |s|
  {
    if |s| < 2 then
      ShortFacts(s);
      CountInversionsResult(s, 0)
    else
      var mid := |s| / 2;
      var res1 := CountInversionsRec(s[..mid]);
      var res2 := CountInversionsRec(s[mid..]);
      var res3 := MergeCount(res1.arr, res2.arr);
      MergeHalves(s, mid, res1.arr, res2.arr);
      CountInversionsResult(res3.arr, res1.nInversions + res2.nInversions + res3.nInversions)
  }

  /** The combine step of CountInversionsRec: merging the sorted halves gives a
      sorted permutation of the whole, and the three counts add up to the
      inversions of the whole. */
  lemma MergeHalves(s: seq<int>, mid: int, x: seq<int>, y: seq<int>)
    requires 0 <= mid <= |s|
    requires multiset(x) == multiset(s[..mid]) && Sorted(x)
    requires multiset(y) == multiset(s[mid..]) && Sorted(y)
    ensures multiset(MergeCount(x, y).arr) == multiset(s)
    ensures Sorted(MergeCount(x, y).arr)
    ensures Inversions(s[..mid]) + Inversions(s[mid..]) + MergeCount(x, y).nInversions == Inversions(s)
  {
    var left, right := s[..mid], s[mid..];
    assert s == left + right;
    MergeCountPerm(x, y);
    MergeSorted(x, y);
    MergeCountsCross(x, y);
    CrossPermLeft(x, left, y);
    CrossPermRight(left, y, right);
    InversionsAppend(left, right);
  }

  /** A sequence of fewer than two elements is sorted and has no inversion. */
  lemma ShortFacts(s: seq<int>)
    requires |s| < 2
    ensures Sorted(s) && Inversions(s) == 0
  {
    if |s| == 1 {
      assert s[..0] == [];
    }
  }

  /** CountInversions: the number of pairs `i < j` with `s[i] > s[j]`. */
  function CountInversions(s: seq<int>): (n: nat)
    ensures n == |InvertedPairs(s)|
    ensures 2 * n <= |s| * (|s| - 1)
    ensures Sorted(s) ==> n == 0
  {
    InversionsArePairs(s);
    InversionsBound(s);
    assert Sorted(s) ==> Inversions(s) == 0 by {
      if Sorted(s) { InversionsOfSorted(s); }
    }
    CountInversionsRec(s).nInversions
  }

  // ---------------------------------------------------------------------------
  // Lemmas about the merge
  // ---------------------------------------------------------------------------

  ghost predicate LowerBound(x: int, s: seq<int>) {
    forall i :: 0 <= i < |s| ==> x <= s[i]
  }

  lemma LowerBoundOfUnion(x: int, s: seq<int>, u: seq<int>, v: seq<int>)
    requires multiset(s) == multiset(u) + multiset(v)
    requires LowerBound(x, u) && LowerBound(x, v)
    ensures LowerBound(x, s)
  {
    forall i | 0 <= i < |s| ensures x <= s[i] {
      assert s[i] in multiset(s);
      if s[i] in multiset(u) {
        assert s[i] in u;
      } else {
        assert s[i] in v;
      }
    }
  }

  lemma SortedCons(x: int, t: seq<int>)
    requires LowerBound(x, t) && Sorted(t)
    ensures Sorted([x] + t)
  {
    forall i, j | 0 <= i < j < |t| + 1 ensures ([x] + t)[i] <= ([x] + t)[j] {
      if i > 0 {
        assert ([x] + t)[i] == t[i - 1];
      }
      assert ([x] + t)[j] == t[j - 1];
    }
  }

  /** Merging two sorted sequences gives a sorted sequence. */
  lemma {:induction false} MergeSorted(a: seq<int>, b: seq<int>)
    requires Sorted(a) && Sorted(b)
    ensures Sorted(MergeCount(a, b).arr)
    decreases |a| + |b|
  {
    if a == [] || b == [] {
    } else if a[0] <= b[0] {
      MergeCountTakeLeft(a, b);
      var t := MergeCount(a[1..], b).arr;
      MergeCountPerm(a[1..], b);
      MergeSorted(a[1..], b);
      LowerBoundOfUnion(a[0], t, a[1..], b);
      SortedCons(a[0], t);
    } else {
      MergeCountTakeRight(a, b);
      var t := MergeCount(a, b[1..]).arr;
      MergeCountPerm(a, b[1..]);
      MergeSorted(a, b[1..]);
      LowerBoundOfUnion(b[0], t, a, b[1..]);
      SortedCons(b[0], t);
    }
  }

  /** When every element of `a` is at most every element of `b` (ties
      included), the merge is plain concatenation and counts nothing: equal
      elements are never counted as inversions. */
  lemma {:induction false} MergeOrderedIsConcat(a: seq<int>, b: seq<int>)
    requires forall i, j :: 0 <= i < |a| && 0 <= j < |b| ==> a[i] <= b[j]
    ensures MergeCount(a, b) == CountInversionsResult(a + b, 0)
  {
    if a == [] {
      assert a + b == b;
    } else if b == [] {
      assert a + b == a;
    } else {
      var a' := a[1..];
      forall i, j | 0 <= i < |a'| && 0 <= j < |b| ensures a'[i] <= b[j] {
        assert a'[i] == a[i + 1];
      }
      MergeOrderedIsConcat(a', b);
      assert a[0] <= b[0];
      MergeCountTakeLeft(a, b);
      assert a == [a[0]] + a';
      Sequences.ConsAppend(a[0], a', b);
    }
  }

  /** For sorted inputs the merge count is the number of pairs `(i, j)` with
      `a[i] > b[j]`. */
  lemma {:induction false} MergeCountsCross(a: seq<int>, b: seq<int>)
    requires Sorted(a) && Sorted(b)
    ensures MergeCount(a, b).nInversions == CrossInversions(a, b)
    decreases |a| + |b|
  {
    if a == [] {
      CrossZero(a, b);
    } else if b == [] {
    } else if a[0] <= b[0] {
      MergeCountTakeLeft(a, b);
      MergeCountsCross(a[1..], b);
      assert a == [a[0]] + a[1..];
      CrossAppendLeft([a[0]], a[1..], b);
      CrossZero([a[0]], b);
    } else {
      MergeCountTakeRight(a, b);
      MergeCountsCross(a, b[1..]);
      assert b == [b[0]] + b[1..];
      CrossAppendRight(a, [b[0]], b[1..]);
      assert [b[0]][..0] == [];
      CountGreaterAll(a, b[0]);
    }
  }

  // ---------------------------------------------------------------------------
  // Lemmas about the reference counts
  // ---------------------------------------------------------------------------

  lemma {:induction false} CountGreaterAppend(u: seq<int>, v: seq<int>, x: int)
    ensures CountGreater(u + v, x) == CountGreater(u, x) + CountGreater(v, x)
    decreases |v|
  {
    if v == [] {
      assert u + v == u;
    } else {
      assert (u + v)[..|u + v| - 1] == u + v[..|v| - 1];
      CountGreaterAppend(u, v[..|v| - 1], x);
    }
  }

  lemma {:induction false} CountGreaterAll(a: seq<int>, x: int)
    requires forall i :: 0 <= i < |a| ==> a[i] > x
    ensures CountGreater(a, x) == |a|
  {
    if a != [] {
      CountGreaterAll(a[..|a| - 1], x);
    }
  }

  lemma {:induction false} CountGreaterNone(a: seq<int>, x: int)
    requires forall i :: 0 <= i < |a| ==> a[i] <= x
    ensures CountGreater(a, x) == 0
  {
    if a != [] {
      CountGreaterNone(a[..|a| - 1], x);
    }
  }

  /** CountGreater depends only on the multiset of elements. */
  lemma {:induction false} CountGreaterPerm(a: seq<int>, a2: seq<int>, x: int)
    requires multiset(a) == multiset(a2)
    ensures CountGreater(a, x) == CountGreater(a2, x)
    decreases |a|
  {
    if a != [] {
      var y := a[|a| - 1];
      assert y in multiset(a2);
      var k :| 0 <= k < |a2| && a2[k] == y;
      var rest := DropLastMultiset(a, a2, k);
      CountGreaterPerm(a[..|a| - 1], rest, x);
      CountGreaterRemoveAt(a2, k, x);
    }
  }

  /** Taking the last element out of `a` and the same value out of `a2`
      keeps the two multisets equal. */
  lemma DropLastMultiset(a: seq<int>, a2: seq<int>, k: int) returns (rest: seq<int>)
    requires a != [] && multiset(a) == multiset(a2)
    requires 0 <= k < |a2| && a2[k] == a[|a| - 1]
    ensures rest == a2[..k] + a2[k + 1..]
    ensures multiset(rest) == multiset(a[..|a| - 1])
  {
    rest := a2[..k] + a2[k + 1..];
    MultisetRemoveAt(a2, k);
    MultisetRemoveAt(a, |a| - 1);
    assert a[|a| - 1 + 1..] == [];
    AddCancel(multiset(rest), multiset(a[..|a| - 1]), a2[k]);
  }

  /** Taking out position `k` takes one occurrence of `s[k]` out of the
      multiset. */
  lemma MultisetRemoveAt(s: seq<int>, k: int)
    requires 0 <= k < |s|
    ensures multiset(s[..k] + s[k + 1..]) + multiset{s[k]} == multiset(s)
  {
    RemoveAt(s, k);
  }

  lemma AddCancel(x: multiset<int>, y: multiset<int>, v: int)
    requires x + multiset{v} == y + multiset{v}
    ensures x == y
  {
    forall e ensures x[e] == y[e] {
      assert (x + multiset{v})[e] == (y + multiset{v})[e];
    }
  }

  lemma CountGreaterRemoveAt(s: seq<int>, k: int, x: int)
    requires 0 <= k < |s|
    ensures CountGreater(s, x) == CountGreater(s[..k] + s[k + 1..], x) + (if s[k] > x then 1 else 0)
  {
    RemoveAt(s, k);
    CountGreaterAppend(s[..k] + [s[k]], s[k + 1..], x);
    CountGreaterAppend(s[..k], [s[k]], x);
    CountGreaterAppend(s[..k], s[k + 1..], x);
    assert [s[k]][..0] == [];
  }

  /** Taking out the element at position `k`. */
  lemma RemoveAt(s: seq<int>, k: int)
    requires 0 <= k < |s|
    ensures s == s[..k] + [s[k]] + s[k + 1..]
    ensures multiset(s[..k] + s[k + 1..]) == multiset(s) - multiset{s[k]}
  {
    assert s == s[..k] + [s[k]] + s[k + 1..];
    assert multiset(s) == multiset(s[..k] + s[k + 1..]) + multiset{s[k]};
  }

  lemma {:induction false} CrossZero(a: seq<int>, b: seq<int>)
    requires forall i, j :: 0 <= i < |a| && 0 <= j < |b| ==> a[i] <= b[j]
    ensures CrossInversions(a, b) == 0
  {
    if b != [] {
      CrossZero(a, b[..|b| - 1]);
      CountGreaterNone(a, b[|b| - 1]);
    }
  }

  lemma {:induction false} CrossAppendRight(a: seq<int>, u: seq<int>, v: seq<int>)
    ensures CrossInversions(a, u + v) == CrossInversions(a, u) + CrossInversions(a, v)
    decreases |v|
  {
    if v == [] {
      assert u + v == u;
    } else {
      assert (u + v)[..|u + v| - 1] == u + v[..|v| - 1];
      CrossAppendRight(a, u, v[..|v| - 1]);
    }
  }

  lemma {:induction false} CrossAppendLeft(u: seq<int>, v: seq<int>, b: seq<int>)
    ensures CrossInversions(u + v, b) == CrossInversions(u, b) + CrossInversions(v, b)
    decreases |b|
  {
    if b != [] {
      CrossAppendLeft(u, v, b[..|b| - 1]);
      CountGreaterAppend(u, v, b[|b| - 1]);
    }
  }

  /** CrossInversions depends only on the multiset of its first argument. */
  lemma {:induction false} CrossPermLeft(a: seq<int>, a2: seq<int>, b: seq<int>)
    requires multiset(a) == multiset(a2)
    ensures CrossInversions(a, b) == CrossInversions(a2, b)
    decreases |b|
  {
    if b != [] {
      CrossPermLeft(a, a2, b[..|b| - 1]);
      CountGreaterPerm(a, a2, b[|b| - 1]);
    }
  }

  /** CrossInversions depends only on the multiset of its second argument. */
  lemma {:induction false} CrossPermRight(a: seq<int>, b: seq<int>, b2: seq<int>)
    requires multiset(b) == multiset(b2)
    ensures CrossInversions(a, b) == CrossInversions(a, b2)
    decreases |b|
  {
    if b != [] {
      var y := b[|b| - 1];
      assert y in multiset(b2);
      var k :| 0 <= k < |b2| && b2[k] == y;
      var rest := DropLastMultiset(b, b2, k);
      CrossPermRight(a, b[..|b| - 1], rest);
      CrossRemoveAt(a, b2, k);
    }
  }

  lemma CrossRemoveAt(a: seq<int>, s: seq<int>, k: int)
    requires 0 <= k < |s|
    ensures CrossInversions(a, s) == CrossInversions(a, s[..k] + s[k + 1..]) + CountGreater(a, s[k])
  {
    RemoveAt(s, k);
    CrossAppendRight(a, s[..k] + [s[k]], s[k + 1..]);
    CrossAppendRight(a, s[..k], [s[k]]);
    CrossAppendRight(a, s[..k], s[k + 1..]);
    assert [s[k]][..0] == [];
  }

  /** The inversions of a concatenation: those inside each part plus those
      across the parts. */
  lemma {:induction false} InversionsAppend(u: seq<int>, v: seq<int>)
    ensures Inversions(u + v) == Inversions(u) + Inversions(v) + CrossInversions(u, v)
    decreases |v|
  {
    if v == [] {
      assert u + v == u;
    } else {
      var w := v[..|v| - 1];
      var y := v[|v| - 1];
      assert (u + v)[..|u + v| - 1] == u + w;
      InversionsAppend(u, w);
      CountGreaterAppend(u, w, y);
    }
  }

  lemma {:induction false} InversionsOfSorted(s: seq<int>)
    requires Sorted(s)
    ensures Inversions(s) == 0
  {
    if s != [] {
      InversionsOfSorted(s[..|s| - 1]);
      CountGreaterNone(s[..|s| - 1], s[|s| - 1]);
    }
  }

  /** At most every pair is inverted. */
  lemma {:induction false} InversionsBound(s: seq<int>)
    ensures 2 * Inversions(s) <= |s| * (|s| - 1)
  {
    if s != [] {
      var n := |s|;
      InversionsBound(s[..n - 1]);
      assert (n - 1) * (n - 2) + 2 * (n - 1) == n * (n - 1);
    }
  }

  // ---------------------------------------------------------------------------
  // The recursive counts equal the sizes of the index-pair sets
  // ---------------------------------------------------------------------------

  /** The pairs `(i, j)` whose element `a[i]` exceeds `y`, for one column `j`. */
  ghost function Column(a: seq<int>, y: int, j: int): set<(int, int)>
  {
    set i | 0 <= i < |a| && a[i] > y :: (i, j)
  }

  lemma {:induction false} ColumnSize(a: seq<int>, y: int, j: int)
    ensures |Column(a, y, j)| == CountGreater(a, y)
  {
    if a != [] {
      var a' := a[..|a| - 1];
      ColumnSize(a', y, j);
      ColumnSplit(a, y, j);
    }
  }

  lemma ColumnSplit(a: seq<int>, y: int, j: int)
    requires a != []
    ensures (|a| - 1, j) !in Column(a[..|a| - 1], y, j)
    ensures a[|a| - 1] > y ==> Column(a, y, j) == Column(a[..|a| - 1], y, j) + {(|a| - 1, j)}
    ensures a[|a| - 1] <= y ==> Column(a, y, j) == Column(a[..|a| - 1], y, j)
  {
    var a' := a[..|a| - 1];
    forall p | p in Column(a, y, j)
      ensures p in Column(a', y, j) || (a[|a| - 1] > y && p == (|a| - 1, j))
    {
      var i :| 0 <= i < |a| && a[i] > y && p == (i, j);
      if i < |a'| {
        assert a'[i] == a[i];
      }
    }
    forall p | p in Column(a', y, j) ensures p in Column(a, y, j) {
      var i :| 0 <= i < |a'| && a'[i] > y && p == (i, j);
      assert a[i] == a'[i];
    }
  }

  lemma {:induction false} CrossInversionsArePairs(a: seq<int>, b: seq<int>)
    ensures CrossInversions(a, b) == |CrossPairs(a, b)|
  {
    if b != [] {
      var b' := b[..|b| - 1];
      var y := b[|b| - 1];
      CrossInversionsArePairs(a, b');
      ColumnSize(a, y, |b'|);
      CrossPairsSplit(a, b);
    }
  }

  lemma CrossPairsSplit(a: seq<int>, b: seq<int>)
    requires b != []
    ensures CrossPairs(a, b) == CrossPairs(a, b[..|b| - 1]) + Column(a, b[|b| - 1], |b| - 1)
    ensures CrossPairs(a, b[..|b| - 1]) * Column(a, b[|b| - 1], |b| - 1) == {}
  {
    var b' := b[..|b| - 1];
    var col := Column(a, b[|b| - 1], |b| - 1);
    forall p | p in CrossPairs(a, b) ensures p in CrossPairs(a, b') + col {
      var i, j :| 0 <= i < |a| && 0 <= j < |b| && a[i] > b[j] && p == (i, j);
      if j < |b'| {
        assert b'[j] == b[j];
      }
    }
    forall p | p in CrossPairs(a, b') ensures p in CrossPairs(a, b) {
      var i, j :| 0 <= i < |a| && 0 <= j < |b'| && a[i] > b'[j] && p == (i, j);
      assert b[j] == b'[j];
    }
    forall p | p in CrossPairs(a, b') ensures p !in col {
    }
  }

  lemma {:induction false} InversionsArePairs(s: seq<int>)
    ensures Inversions(s) == |InvertedPairs(s)|
  {
    if s != [] {
      var s' := s[..|s| - 1];
      var y := s[|s| - 1];
      InversionsArePairs(s');
      ColumnSize(s', y, |s'|);
      InvertedPairsSplit(s);
    }
  }

  lemma InvertedPairsSplit(s: seq<int>)
    requires s != []
    ensures InvertedPairs(s) == InvertedPairs(s[..|s| - 1]) + Column(s[..|s| - 1], s[|s| - 1], |s| - 1)
    ensures InvertedPairs(s[..|s| - 1]) * Column(s[..|s| - 1], s[|s| - 1], |s| - 1) == {}
  {
    var s' := s[..|s| - 1];
    var col := Column(s', s[|s| - 1], |s| - 1);
    forall p | p in InvertedPairs(s) ensures p in InvertedPairs(s') + col {
      var i, j :| 0 <= i < j < |s| && s[i] > s[j] && p == (i, j);
      assert s'[i] == s[i];
      if j < |s'| {
        assert s'[j] == s[j];
      }
    }
    forall p | p in InvertedPairs(s') ensures p in InvertedPairs(s) {
      var i, j :| 0 <= i < j < |s'| && s'[i] > s'[j] && p == (i, j);
      assert s[i] == s'[i] && s[j] == s'[j];
    }
    forall p | p in col ensures p in InvertedPairs(s) {
      var i :| 0 <= i < |s'| && s'[i] > s[|s| - 1] && p == (i, |s| - 1);
      assert s[i] == s'[i];
    }
    forall p | p in InvertedPairs(s') ensures p !in col {
    }
  }
}
