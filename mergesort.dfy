/**
 * The standalone top-down merge sort of Sort/mergeSort.go: `MergeSort` sorts an
 * int slice in place through the recursive helper `recur`, which sorts the
 * inclusive index range start..end by sorting both halves and merging them
 * through a temporary slice.
 */
module MergeSort {

  /** Ascending order (duplicates allowed). */
  predicate Sorted(s: seq<int>) {
    forall i, j :: 0 <= i < j < |s| ==> s[i] <= s[j]
  }

  /**
   * The merge loops of recur, one step per element: acc holds what has been
   * appended to temp so far, i and j count the elements taken from the left
   * run a and the right run b. While both runs have elements the smaller head
   * is taken, and on a tie (left head not strictly smaller) the right one;
   * then the rest of whichever run remains is appended.
   */
  function Merge(a: seq<int>, b: seq<int>, i: nat, j: nat, acc: seq<int>): seq<int>
    requires i <= |a| && j <= |b|
    decreases |a| - i + |b| - j
  {
    if i < |a| && j < |b| then
      if a[i] < b[j] then Merge(a, b, i + 1, j, acc + [a[i]])
      else Merge(a, b, i, j + 1, acc + [b[j]])
    else if i < |a| then Merge(a, b, i + 1, j, acc + [a[i]])
    else if j < |b| then Merge(a, b, i, j + 1, acc + [b[j]])
    else acc
  }

  /**
   * What recur computes for a range holding s: ranges of at most one element
   * are left alone, longer ones are split after the middle index
   * start + (end - start) / 2, so the left run has (|s| - 1) / 2 + 1 elements.
   */
  function Sorting(s: seq<int>): seq<int>
    decreases |s|
  {
    if |s| <= 1 then s
    else
      var half := (|s| - 1) / 2 + 1;
      Merge(Sorting(s[..half]), Sorting(s[half..]), 0, 0, [])
  }

  /** Merging takes every remaining element exactly once. */
  lemma {:induction false} MergeLength(a: seq<int>, b: seq<int>, i: nat, j: nat, acc: seq<int>)
    requires i <= |a| && j <= |b|
    ensures |Merge(a, b, i, j, acc)| == |acc| + (|a| - i) + (|b| - j)
    decreases |a| - i + |b| - j
  {
    if i < |a| && (j == |b| || a[i] < b[j]) {
      MergeLength(a, b, i + 1, j, acc + [a[i]]);
    } else if j < |b| {
      MergeLength(a, b, i, j + 1, acc + [b[j]]);
    }
  }

  /** Moving the head x of a run onto the accumulator keeps the total multiset. */
  lemma {:induction false} MoveHead(acc: seq<int>, x: int, rest: seq<int>, other: seq<int>)
    ensures multiset(acc + [x]) + multiset(rest) + multiset(other)
         == multiset(acc) + multiset([x] + rest) + multiset(other)
    ensures multiset(acc + [x]) + multiset(other) + multiset(rest)
         == multiset(acc) + multiset(other) + multiset([x] + rest)
  {
  }

  /** Merging neither loses nor invents elements. */
  lemma {:induction false} MergePermutes(a: seq<int>, b: seq<int>, i: nat, j: nat, acc: seq<int>)
    requires i <= |a| && j <= |b|
    ensures multiset(Merge(a, b, i, j, acc)) == multiset(acc) + multiset(a[i..]) + multiset(b[j..])
    decreases |a| - i + |b| - j
  {
    if i < |a| && (j == |b| || a[i] < b[j]) {
      assert Merge(a, b, i, j, acc) == Merge(a, b, i + 1, j, acc + [a[i]]);
      MergePermutes(a, b, i + 1, j, acc + [a[i]]);
      MoveHead(acc, a[i], a[i + 1..], b[j..]);
      assert [a[i]] + a[i + 1..] == a[i..];
    } else if j < |b| {
      assert Merge(a, b, i, j, acc) == Merge(a, b, i, j + 1, acc + [b[j]]);
      MergePermutes(a, b, i, j + 1, acc + [b[j]]);
      MoveHead(acc, b[j], b[j + 1..], a[i..]);
      assert [b[j]] + b[j + 1..] == b[j..];
    } else {
      assert a[i..] == [] && b[j..] == [];
    }
  }

  /** Appending an element no smaller than the last keeps a run sorted. */
  lemma {:induction false} SnocSorted(s: seq<int>, x: int)
    requires Sorted(s)
    requires s != [] ==> s[|s| - 1] <= x
    ensures Sorted(s + [x])
  {
  }

  /**
   * Merging two sorted runs onto a sorted prefix whose last element is no
   * greater than either remaining head yields a sorted run.
   */
  lemma {:induction false} MergeSorted(a: seq<int>, b: seq<int>, i: nat, j: nat, acc: seq<int>)
    requires i <= |a| && j <= |b|
    requires Sorted(a) && Sorted(b) && Sorted(acc)
    requires acc != [] && i < |a| ==> acc[|acc| - 1] <= a[i]
    requires acc != [] && j < |b| ==> acc[|acc| - 1] <= b[j]
    ensures Sorted(Merge(a, b, i, j, acc))
    decreases |a| - i + |b| - j
  {
    if i < |a| && (j == |b| || a[i] < b[j]) {
      SnocSorted(acc, a[i]);
      MergeSorted(a, b, i + 1, j, acc + [a[i]]);
    } else if j < |b| {
      SnocSorted(acc, b[j]);
      MergeSorted(a, b, i, j + 1, acc + [b[j]]);
    }
  }

  /** The result of Sorting is a permutation of its input. */
  lemma {:induction false} SortingPermutes(s: seq<int>)
    ensures multiset(Sorting(s)) == multiset(s)
    ensures |Sorting(s)| == |s|
    decreases |s|
  {
    if |s| > 1 {
      var half := (|s| - 1) / 2 + 1;
      var left, right := Sorting(s[..half]), Sorting(s[half..]);
      SortingPermutes(s[..half]);
      SortingPermutes(s[half..]);
      MergePermutes(left, right, 0, 0, []);
      MergeLength(left, right, 0, 0, []);
      assert left[0..] == left && right[0..] == right;
      assert s == s[..half] + s[half..];
    }
  }

  /** One unfolding of Sorting at the split point recur uses. */
  lemma {:induction false} SortingSplit(s: seq<int>, half: nat)
    requires |s| > 1 && half == (|s| - 1) / 2 + 1
    ensures Sorting(s) == Merge(Sorting(s[..half]), Sorting(s[half..]), 0, 0, [])
  {
  }

  /** The result of Sorting is in ascending order. */
  lemma {:induction false} SortingSorted(s: seq<int>)
    ensures Sorted(Sorting(s))
    decreases |s|
  {
    if |s| > 1 {
      var half := (|s| - 1) / 2 + 1;
      SortingSorted(s[..half]);
      SortingSorted(s[half..]);
      MergeSorted(Sorting(s[..half]), Sorting(s[half..]), 0, 0, []);
    }
  }

  /** The head of a sorted sequence is its least element. */
  lemma {:induction false} HeadIsLeast(s: seq<int>, x: int)
    requires Sorted(s) && x in s
    ensures s[0] <= x
  {
    var i :| 0 <= i < |s| && s[i] == x;
    assert s[0] <= s[i];
  }

  /** Removing the head of a non-empty sequence. */
  lemma {:induction false} DropHead(s: seq<int>)
    requires s != []
    ensures multiset(s[1..]) == multiset(s) - multiset{s[0]}
    ensures Sorted(s) ==> Sorted(s[1..])
  {
    assert s == [s[0]] + s[1..];
  }

  /**
   * There is only one sorted permutation of a sequence, so any correct sort
   * (the library's sort.Ints included) computes the same result as Sorting.
   */
  lemma {:induction false} SortedPermutationUnique(a: seq<int>, b: seq<int>)
    requires Sorted(a) && Sorted(b)
    requires multiset(a) == multiset(b)
    ensures a == b
    decreases |a|
  {
    assert |a| == |multiset(a)| == |multiset(b)| == |b|;
    if a != [] {
      assert a[0] in multiset(b) && b[0] in multiset(a);
      HeadIsLeast(b, a[0]);
      HeadIsLeast(a, b[0]);
      assert a[0] == b[0];
      DropHead(a);
      DropHead(b);
      ghost var ta, tb := a[1..], b[1..];
      assert multiset(ta) == multiset(tb);
      SortedPermutationUnique(ta, tb);
      assert a == [a[0]] + ta && b == [b[0]] + tb;
    }
  }

  /** Sorts arr in place and returns the same array (Sort/mergeSort.go MergeSort). */
  method MergeSort(arr: array<int>) returns (r: array<int>)
    modifies arr
    ensures r == arr
    ensures arr[..] == Sorting(old(arr[..]))
    ensures Sorted(arr[..]) && multiset(arr[..]) == multiset(old(arr[..]))
  {
    ghost var s := arr[..];
    Recur(arr, 0, arr.Length - 1);
    if arr.Length > 1 {
      assert arr[..] == arr[0..arr.Length] && s == s[0..arr.Length];
    }
    SortingSorted(s);
    SortingPermutes(s);
    r := arr;
  }

  /** a and b agree everywhere outside the inclusive range lo..hi. */
  ghost predicate SameOutside(a: seq<int>, b: seq<int>, lo: int, hi: int) {
    |a| == |b| && forall k :: 0 <= k < |a| && (k < lo || hi < k) ==> a[k] == b[k]
  }

  /** A slice that lies outside the changed range is unchanged. */
  lemma {:induction false} SliceOutside(a: seq<int>, b: seq<int>, lo: int, hi: int, i: int, j: int)
    requires SameOutside(a, b, lo, hi)
    requires 0 <= i <= j <= |a| && (j <= lo || hi < i)
    ensures a[i..j] == b[i..j]
  {
    assert forall k :: 0 <= k < j - i ==> a[i..j][k] == a[i + k] && b[i..j][k] == b[i + k];
  }

  /** The two halves of a slice are slices of the whole. */
  lemma {:induction false} SliceOfSlice(s: seq<int>, i: int, k: int, j: int)
    requires 0 <= i <= k <= j <= |s|
    ensures s[i..j][..k - i] == s[i..k] && s[i..j][k - i..] == s[k..j]
  {
  }

  /** Three changes inside lo..hi, one after another, change nothing outside it. */
  lemma {:induction false} SameOutsideChain(a: seq<int>, b: seq<int>, c: seq<int>, d: seq<int>, lo: int, mid: int, hi: int)
    requires lo <= mid <= hi
    requires SameOutside(a, b, lo, mid) && SameOutside(b, c, mid + 1, hi) && SameOutside(c, d, lo, hi)
    ensures SameOutside(a, d, lo, hi)
  {
  }

  /**
   * Sorts the inclusive range start..end of arr (Sort/mergeSort.go recur).
   * A range with start >= end is returned at once, whatever the indices are;
   * otherwise both indices must lie inside the array, as the slice indexing
   * of the source requires.
   */
  method Recur(arr: array<int>, start: int, end: int)
    requires start < end ==> 0 <= start && end < arr.Length
    modifies arr
    ensures start >= end ==> arr[..] == old(arr[..])
    ensures start < end ==> arr[start..end + 1] == Sorting(old(arr[start..end + 1]))
    ensures SameOutside(old(arr[..]), arr[..], start, end)
    decreases end - start
  {
    if start >= end {
      return;
    }
    var mid := start + (end - start) / 2;
    ghost var s0 := arr[..];
    Recur(arr, start, mid);
    ghost var s1 := arr[..];
    Recur(arr, mid + 1, end);
    ghost var s2 := arr[..];
    MergeHalves(arr, start, mid, end);
    RecurStep(s0, s1, s2, arr[..], start, mid, end);
  }

  /**
   * The proof step of recur: sorting the left half, then the right half, then
   * merging the two sorted halves sorts the whole range and nothing else.
   */
  lemma {:induction false} RecurStep(s0: seq<int>, s1: seq<int>, s2: seq<int>, s3: seq<int>, start: int, mid: int, end: int)
    requires 0 <= start <= mid < end < |s0| && mid == start + (end - start) / 2
    requires SameOutside(s0, s1, start, mid) && SameOutside(s1, s2, mid + 1, end)
    requires SameOutside(s2, s3, start, end)
    requires s1[start..mid + 1] == Sorting(s0[start..mid + 1])
    requires s2[mid + 1..end + 1] == Sorting(s1[mid + 1..end + 1])
    requires s3[start..end + 1] == Merge(s2[start..mid + 1], s2[mid + 1..end + 1], 0, 0, [])
    ensures s3[start..end + 1] == Sorting(s0[start..end + 1]) && SameOutside(s0, s3, start, end)
  {
    SliceOutside(s0, s1, start, mid, mid + 1, end + 1);
    SliceOutside(s1, s2, mid + 1, end, start, mid + 1);
    SliceOfSlice(s0, start, mid + 1, end + 1);
    SortingSplit(s0[start..end + 1], mid - start + 1);
    SameOutsideChain(s0, s1, s2, s3, start, mid, end);
  }

  /** The merge and copy-back steps of recur, once both halves are sorted. */
  method MergeHalves(arr: array<int>, start: int, mid: int, end: int)
    requires 0 <= start <= mid < end < arr.Length
    modifies arr
    ensures arr[start..end + 1] == Merge(old(arr[start..mid + 1]), old(arr[mid + 1..end + 1]), 0, 0, [])
    ensures SameOutside(old(arr[..]), arr[..], start, end)
  {
    var temp := MergeRange(arr, start, mid, end);
    MergeLength(arr[start..mid + 1], arr[mid + 1..end + 1], 0, 0, []);
    CopyBack(arr, start, end, temp);
  }

  /**
   * The merge loops of recur: merges the runs arr[start..mid] and
   * arr[mid+1..end] into a fresh slice without touching arr;
   * |temp| == (left - start) + (right - mid - 1) throughout.
   */
  method MergeRange(arr: array<int>, start: int, mid: int, end: int) returns (temp: seq<int>)
    requires 0 <= start <= mid < end < arr.Length
    ensures temp == Merge(arr[start..mid + 1], arr[mid + 1..end + 1], 0, 0, [])
  {
    ghost var a, b := arr[start..mid + 1], arr[mid + 1..end + 1];
    ghost var m := Merge(a, b, 0, 0, []);
    temp := [];
    var left, right := start, mid + 1;
    while left <= mid && right <= end
      invariant start <= left <= mid + 1 && mid + 1 <= right <= end + 1
      invariant |temp| == (left - start) + (right - mid - 1)
      invariant Merge(a, b, left - start, right - mid - 1, temp) == m
    {
      if arr[left] < arr[right] {
        temp := temp + [arr[left]];
        left := left + 1;
      } else {
        temp := temp + [arr[right]];
        right := right + 1;
      }
    }
    while left <= mid
      invariant start <= left <= mid + 1 && mid + 1 <= right <= end + 1
      invariant left <= mid ==> right == end + 1
      invariant |temp| == (left - start) + (right - mid - 1)
      invariant Merge(a, b, left - start, right - mid - 1, temp) == m
    {
      temp := temp + [arr[left]];
      left := left + 1;
    }
    while right <= end
      invariant mid + 1 <= right <= end + 1 && left == mid + 1
      invariant |temp| == (left - start) + (right - mid - 1)
      invariant Merge(a, b, left - start, right - mid - 1, temp) == m
    {
      temp := temp + [arr[right]];
      right := right + 1;
    }
  }

  /** The final loop of recur: copies temp back over arr[start..end]. */
  method CopyBack(arr: array<int>, start: int, end: int, temp: seq<int>)
    requires 0 <= start <= end < arr.Length && |temp| == end - start + 1
    modifies arr
    ensures arr[start..end + 1] == temp
    ensures forall i :: 0 <= i < arr.Length && (i < start || end < i) ==> arr[i] == old(arr[i])
  {
    for i := start to end + 1
      invariant arr[start..i] == temp[..i - start]
      invariant forall j :: 0 <= j < arr.Length && (j < start || i <= j) ==> arr[j] == old(arr[j])
    {
      arr[i] := temp[i - start];
    }
  }
}
