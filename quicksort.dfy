/**
 * The three-way quicksort of test/samples/quicksort.py. Python lists become
 * sequences, which are values: the function builds new sequences and its
 * argument cannot change, as Python's list comprehensions leave `arr`
 * untouched.
 */
module Sorting {

  predicate Sorted(s: seq<int>)
  {
    forall i, j :: 0 <= i < j < |s| ==> s[i] <= s[j]
  }

  /** `[x for x in arr if x < pivot]`: every occurrence below the pivot, and nothing else. */
  function LessThan(arr: seq<int>, pivot: int): (left: seq<int>)
    ensures forall x :: multiset(left)[x] == if x < pivot then multiset(arr)[x] else 0
  {
    if arr == [] then []
    else
      assert arr == [arr[0]] + arr[1..];
      (if arr[0] < pivot then [arr[0]] else []) + LessThan(arr[1..], pivot)
  }

  /** `[x for x in arr if x == pivot]`: every occurrence of the pivot, and nothing else. */
  function EqualTo(arr: seq<int>, pivot: int): (middle: seq<int>)
    ensures forall x :: multiset(middle)[x] == if x == pivot then multiset(arr)[x] else 0
  {
    if arr == [] then []
    else
      assert arr == [arr[0]] + arr[1..];
      (if arr[0] == pivot then [arr[0]] else []) + EqualTo(arr[1..], pivot)
  }

  /** `[x for x in arr if x > pivot]`: every occurrence above the pivot, and nothing else. */
  function GreaterThan(arr: seq<int>, pivot: int): (right: seq<int>)
    ensures forall x :: multiset(right)[x] == if x > pivot then multiset(arr)[x] else 0
  {
    if arr == [] then []
    else
      assert arr == [arr[0]] + arr[1..];
      (if arr[0] > pivot then [arr[0]] else []) + GreaterThan(arr[1..], pivot)
  }

  /**
   * Together the three parts hold exactly the elements of `arr`: each value
   * falls into exactly one of them, with all its occurrences.
   */
  lemma PartitionCovers(arr: seq<int>, pivot: int)
    ensures multiset(LessThan(arr, pivot)) + multiset(EqualTo(arr, pivot)) + multiset(GreaterThan(arr, pivot))
            == multiset(arr)
  {
    var parts := multiset(LessThan(arr, pivot)) + multiset(EqualTo(arr, pivot)) + multiset(GreaterThan(arr, pivot));
    forall x ensures parts[x] == multiset(arr)[x] {
      assert parts[x] == multiset(LessThan(arr, pivot))[x] + multiset(EqualTo(arr, pivot))[x]
                         + multiset(GreaterThan(arr, pivot))[x];
    }
  }

  /** Each part lies on its side of the pivot. */
  lemma PartitionSides(arr: seq<int>, pivot: int)
    ensures forall x :: x in LessThan(arr, pivot) ==> x < pivot
    ensures forall x :: x in EqualTo(arr, pivot) ==> x == pivot
    ensures forall x :: x in GreaterThan(arr, pivot) ==> x > pivot
  {
    LessSide(arr, pivot);
    EqualSide(arr, pivot);
    GreaterSide(arr, pivot);
  }

  lemma LessSide(arr: seq<int>, pivot: int)
    ensures forall x :: x in LessThan(arr, pivot) ==> x < pivot
  {
    var left := LessThan(arr, pivot);
    forall x | x in left ensures x < pivot {
      assert multiset(left)[x] > 0;
    }
  }

  lemma EqualSide(arr: seq<int>, pivot: int)
    ensures forall x :: x in EqualTo(arr, pivot) ==> x == pivot
  {
    var middle := EqualTo(arr, pivot);
    forall x | x in middle ensures x == pivot {
      assert multiset(middle)[x] > 0;
    }
  }

  lemma GreaterSide(arr: seq<int>, pivot: int)
    ensures forall x :: x in GreaterThan(arr, pivot) ==> x > pivot
  {
    var right := GreaterThan(arr, pivot);
    forall x | x in right ensures x > pivot {
      assert multiset(right)[x] > 0;
    }
  }

  /**
   * The pivot is taken from `arr`, so the middle part is not empty and the
   * outer parts are strictly shorter than `arr`: the recursion terminates.
   */
  lemma PartitionShrinks(arr: seq<int>, pivot: int)
    requires pivot in arr
    ensures |EqualTo(arr, pivot)| >= 1
    ensures |LessThan(arr, pivot)| < |arr| && |GreaterThan(arr, pivot)| < |arr|
  {
    var middle := EqualTo(arr, pivot);
    PartitionCovers(arr, pivot);
    assert multiset(middle)[pivot] > 0;
    assert |multiset(LessThan(arr, pivot))| + |multiset(middle)| + |multiset(GreaterThan(arr, pivot))| == |arr|;
  }

  /** Sorted pieces on the right sides of the pivot join into a sorted sequence. */
  lemma SortedJoin(a: seq<int>, m: seq<int>, b: seq<int>, pivot: int)
    requires Sorted(a) && Sorted(b)
    requires forall x :: x in a ==> x < pivot
    requires forall x :: x in m ==> x == pivot
    requires forall x :: x in b ==> x > pivot
    ensures Sorted(a + m + b)
  {
    var s := a + m + b;
    forall i, j | 0 <= i < j < |s| ensures s[i] <= s[j] {
      if i < |a| {
        assert s[i] in a;
      } else if i < |a| + |m| {
        assert s[i] in m;
      } else {
        assert s[i] in b;
      }
      if j < |a| {
        assert s[j] in a;
      } else if j < |a| + |m| {
        assert s[j] in m;
      } else {
        assert s[j] in b;
      }
    }
  }

  /**
   * `quicksort(arr)`: short lists come back unchanged; otherwise the result
   * is sorted and is a permutation of `arr`, with every duplicate kept.
   */
  function QuickSort(arr: seq<int>): (r: seq<int>)
    ensures |arr| <= 1 ==> r == arr
    ensures |r| == |arr| && multiset(r) == multiset(arr)
    ensures Sorted(r)
    decreases |arr|
  {
    if |arr| <= 1 then arr
    else
      var pivot := arr[|arr| / 2];
      var left := LessThan(arr, pivot);
      var middle := EqualTo(arr, pivot);
      var right := GreaterThan(arr, pivot);
      PartitionShrinks(arr, pivot);
      var sortedLeft := QuickSort(left);
      var sortedRight := QuickSort(right);
      PartitionSides(arr, pivot);
      PartitionCovers(arr, pivot);
      SameMembers(left, sortedLeft);
      SameMembers(right, sortedRight);
      SortedJoin(sortedLeft, middle, sortedRight, pivot);
      sortedLeft + middle + sortedRight
  }

  lemma SameMembers(a: seq<int>, b: seq<int>)
    requires multiset(a) == multiset(b)
    ensures forall x :: x in b ==> x in a
  {
    forall x | x in b ensures x in a {
      assert x in multiset(b);
    }
  }

  lemma SortedHeadIsLeast(s: seq<int>, x: int)
    requires Sorted(s) && x in s
    ensures s[0] <= x
  {
  }

  /** A sorted sequence is determined by its multiset of elements. */
  lemma {:induction false} SortedUnique(a: seq<int>, b: seq<int>)
    requires Sorted(a) && Sorted(b) && multiset(a) == multiset(b)
    ensures a == b
  {
    if a == [] || b == [] {
      assert |multiset(a)| == |a| && |multiset(b)| == |b|;
    } else {
      SortedHeads(a, b);
      SortedUnique(a[1..], b[1..]);
      assert a == [a[0]] + a[1..];
      assert b == [b[0]] + b[1..];
    }
  }

  /** Two non-empty sorted sequences with the same elements start alike and continue alike. */
  lemma SortedHeads(a: seq<int>, b: seq<int>)
    requires Sorted(a) && Sorted(b) && multiset(a) == multiset(b)
    requires a != [] && b != []
    ensures a[0] == b[0] && multiset(a[1..]) == multiset(b[1..])
  {
    assert a[0] in multiset(b);
    assert b[0] in multiset(a);
    SortedHeadIsLeast(b, a[0]);
    SortedHeadIsLeast(a, b[0]);
    assert a == [a[0]] + a[1..];
    assert b == [b[0]] + b[1..];
    assert multiset(a) == multiset{a[0]} + multiset(a[1..]);
    assert multiset(b) == multiset{b[0]} + multiset(b[1..]);
    assert a[0] == b[0];
    assert multiset(a[1..]) == multiset(a) - multiset{a[0]};
    assert multiset(b[1..]) == multiset(b) - multiset{b[0]};
  }

  /**
   * A reference definition of the result: any sorted permutation of `arr`
   * is exactly what QuickSort returns.
   */
  lemma QuickSortIsTheSortedPermutation(arr: seq<int>, r: seq<int>)
    requires Sorted(r) && multiset(r) == multiset(arr)
    ensures QuickSort(arr) == r
  {
    SortedUnique(QuickSort(arr), r);
  }

  lemma SampleMultiset()
    ensures multiset([1, 1, 2, 3, 6, 8, 10]) == multiset([3, 6, 8, 10, 1, 2, 1])
  {
  }

  /**
   * The script at the end of the Python file: the sample list sorts to
   * [1, 1, 2, 3, 6, 8, 10].
   */
  lemma SampleList(numbers: seq<int>)
    requires numbers == [3, 6, 8, 10, 1, 2, 1]
    ensures QuickSort(numbers) == [1, 1, 2, 3, 6, 8, 10]
  {
    SampleMultiset();
    SampleSorted();
    QuickSortIsTheSortedPermutation(numbers, [1, 1, 2, 3, 6, 8, 10]);
  }

  lemma SampleSorted()
    ensures Sorted([1, 1, 2, 3, 6, 8, 10])
  {
  }
}
