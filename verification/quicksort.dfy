/** Lomuto quicksort of Module02/Quicksort/Quicksort.cpp and its task-recursive
    variant of Module02/Quicksort/OMP_Qsort.cpp.

    The C++ sorts an `int*` in place; here a vector is a `seq<int>` and every
    operation returns the new vector.  `partition` and `quick_sort` are
    textually the same in both files, so one definition serves both. */
module Quicksort {

  /** Every index outside [low, high] keeps its value. */
  predicate SameOutside(v: seq<int>, w: seq<int>, low: int, high: int)
  {
    |w| == |v| && forall k :: 0 <= k < |v| && (k < low || high < k) ==> w[k] == v[k]
  }

  /** v[low..high] (both ends included) is in ascending order. */
  predicate Sorted(v: seq<int>, low: int, high: int)
  {
    forall a, b :: low <= a < b <= high && 0 <= a && b < |v| ==> v[a] <= v[b]
  }

  /** The whole sequence is ascending. */
  predicate Ascending(s: seq<int>)
  {
    forall a, b :: 0 <= a < b < |s| ==> s[a] <= s[b]
  }

  /** `std::swap(vec[i], vec[j])`: exchanges two entries. */
  function Swap(v: seq<int>, i: int, j: int): (w: seq<int>)
    requires 0 <= i < |v| && 0 <= j < |v|
    ensures |w| == |v| && w[i] == v[j] && w[j] == v[i]
    ensures forall k :: 0 <= k < |v| && k != i && k != j ==> w[k] == v[k]
    ensures multiset(w) == multiset(v)
  {
    v[i := v[j]][j := v[i]]
  }

  /** rand_fill (Quicksort.cpp:15-21, OMP_Qsort.cpp:16-23): the first `size`
      entries become `rand_r(&seed) % 1000`, the C library's draws being the
      parameter `draws` (all non-negative, as rand_r's results are). */
  method RandFill(v: seq<int>, size: int, draws: seq<nat>) returns (w: seq<int>)
    requires size <= |v| && size <= |draws|
    ensures |w| == |v|
    ensures forall i :: 0 <= i < size ==> 0 <= w[i] <= 999 && w[i] == draws[i] % 1000
    ensures forall i :: 0 <= i < |v| && size <= i ==> w[i] == v[i]
  {
    w := v;
    var i := 0;
    while i < size
      invariant 0 <= i <= if size < 0 then 0 else size
      invariant |w| == |v|
      invariant forall k :: 0 <= k < i ==> 0 <= w[k] <= 999 && w[k] == draws[k] % 1000
      invariant forall k :: i <= k < |v| ==> w[k] == v[k]
    {
      w := w[i := draws[i] % 1000];
      i := i + 1;
    }
  }

  /** partition: the pivot is the old last entry vec[high]; every entry not
      above it is swapped to the front; finally the pivot is swapped into
      place just after them and its index is returned. */
  method Partition(v: seq<int>, low: int, high: int) returns (w: seq<int>, p: int)
    requires 0 <= low <= high < |v|
    ensures low <= p <= high
    ensures SameOutside(v, w, low, high) && multiset(w) == multiset(v)
    ensures w[p] == v[high]
    ensures forall k :: low <= k < p ==> w[k] <= w[p]
    ensures forall k :: p < k <= high ==> w[k] > w[p]
  {
    var pivot := v[high];
    var i := low - 1;
    w := v;
    var j := low;
    while j < high
      invariant low <= j <= high
      invariant PartitionInv(v, w, low, high, i, j)
    {
      w, i := PartitionStep(v, w, low, high, i, j);
      j := j + 1;
    }
    w, p := PlacePivot(v, w, low, high, i);
  }

  /** The loop state of partition after j steps: entries low..i are at most
      the pivot vec[high], entries i+1..j-1 are above it. */
  ghost predicate PartitionInv(v: seq<int>, w: seq<int>, low: int, high: int, i: int, j: int)
    requires 0 <= low <= high < |v|
  {
    && low - 1 <= i < j <= high
    && SameOutside(v, w, low, high) && multiset(w) == multiset(v)
    && w[high] == v[high]
    && (forall k :: low <= k <= i ==> w[k] <= v[high])
    && (forall k :: i < k < j ==> w[k] > v[high])
  }

  /** One iteration of partition's loop. */
  method PartitionStep(v: seq<int>, w: seq<int>, low: int, high: int, i: int, j: int) returns (w': seq<int>, i': int)
    requires 0 <= low <= j < high < |v|
    requires PartitionInv(v, w, low, high, i, j)
    ensures PartitionInv(v, w', low, high, i', j + 1)
  {
    w', i' := w, i;
    if w[j] <= v[high] {
      i' := i + 1;
      w' := Swap(w, i', j);
    }
  }

  /** The final swap of partition: the pivot moves to just after the entries
      at or below it. */
  method PlacePivot(v: seq<int>, w: seq<int>, low: int, high: int, i: int) returns (w': seq<int>, p: int)
    requires 0 <= low <= high < |v|
    requires low - 1 <= i < high
    requires PartitionInv(v, w, low, high, i, high)
    ensures low <= p <= high
    ensures SameOutside(v, w', low, high) && multiset(w') == multiset(v)
    ensures w'[p] == v[high]
    ensures forall k :: low <= k < p ==> w'[k] <= w'[p]
    ensures forall k :: p < k <= high ==> w'[k] > w'[p]
  {
    w' := Swap(w, i + 1, high);
    p := i + 1;
  }

  /** Two vectors that agree outside [lo, hi) and hold the same multiset
      hold the same multiset inside [lo, hi). */
  lemma {:induction false} SliceMultiset(v: seq<int>, w: seq<int>, lo: int, hi: int)
    requires 0 <= lo <= hi <= |v| && |w| == |v|
    requires forall k :: 0 <= k < |v| && (k < lo || hi <= k) ==> w[k] == v[k]
    requires multiset(w) == multiset(v)
    ensures multiset(w[lo..hi]) == multiset(v[lo..hi])
  {
    ThreeParts(v, lo, hi);
    ThreeParts(w, lo, hi);
    assert w[..lo] == v[..lo];
    assert w[hi..] == v[hi..];
    calc {
      multiset(w[lo..hi]);
      multiset(w) - multiset(w[..lo]) - multiset(w[hi..]);
      multiset(v) - multiset(v[..lo]) - multiset(v[hi..]);
      multiset(v[lo..hi]);
    }
  }

  lemma ThreeParts(v: seq<int>, lo: int, hi: int)
    requires 0 <= lo <= hi <= |v|
    ensures multiset(v) == multiset(v[..lo]) + multiset(v[lo..hi]) + multiset(v[hi..])
  {
    assert v == v[..lo] + v[lo..hi] + v[hi..];
  }

  /** A bound on every entry of a slice survives any permutation of it. */
  lemma BoundsSurvive(v: seq<int>, w: seq<int>, lo: int, hi: int, x: int)
    requires 0 <= lo <= hi <= |v| && |w| == |v|
    requires multiset(w[lo..hi]) == multiset(v[lo..hi])
    ensures (forall k :: lo <= k < hi ==> v[k] <= x) ==> forall k :: lo <= k < hi ==> w[k] <= x
    ensures (forall k :: lo <= k < hi ==> v[k] > x) ==> forall k :: lo <= k < hi ==> w[k] > x
  {
    forall k | lo <= k < hi
      ensures exists m :: lo <= m < hi && v[m] == w[k]
    {
      assert w[lo..hi][k - lo] == w[k];
      assert w[k] in multiset(v[lo..hi]);
      var m :| 0 <= m < hi - lo && v[lo..hi][m] == w[k];
      assert v[lo + m] == w[k];
    }
  }

  /** quick_sort (Quicksort.cpp:119-132, OMP_Qsort.cpp:121-134): sorts
      vec[low..high] ascending by permuting it; nothing else moves, and an
      empty or one-element range is left alone. */
  method QuickSort(v: seq<int>, low: int, high: int) returns (w: seq<int>)
    requires low >= high || (0 <= low && high < |v|)
    ensures SameOutside(v, w, low, high) && multiset(w) == multiset(v)
    ensures low < high ==> multiset(w[low..high + 1]) == multiset(v[low..high + 1])
    ensures Sorted(w, low, high)
    ensures low >= high ==> w == v
    decreases high - low
  {
    w := v;
    if low < high {
      var p;
      w, p := Partition(v, low, high);
      var left := QuickSort(w, low, p - 1);
      var right := QuickSort(left, p + 1, high);
      Glue(v, w, low, high, p, left, right);
      w := right;
    }
  }

  /** The proof step of quick_sort: a permuted left side stays at or below
      the pivot, a permuted right side stays above it, so sorted sides around
      the pivot make a sorted range. */
  lemma {:induction false} Glue(v: seq<int>, w: seq<int>, low: int, high: int, p: int, left: seq<int>, right: seq<int>)
    requires 0 <= low <= p <= high < |v|
    requires SameOutside(v, w, low, high) && multiset(w) == multiset(v)
    requires forall k :: low <= k < p ==> w[k] <= w[p]
    requires forall k :: p < k <= high ==> w[k] > w[p]
    requires SameOutside(w, left, low, p - 1) && multiset(left) == multiset(w)
    requires Sorted(left, low, p - 1)
    requires SameOutside(left, right, p + 1, high) && multiset(right) == multiset(left)
    requires Sorted(right, p + 1, high)
    ensures SameOutside(v, right, low, high) && multiset(right) == multiset(v)
    ensures multiset(right[low..high + 1]) == multiset(v[low..high + 1])
    ensures Sorted(right, low, high)
  {
    LeftSide(w, left, right, low, high, p);
    RightSide(w, left, right, low, high, p);
    GlueSorted(right, low, high, p);
    GlueFrame(v, w, left, right, low, high, p);
  }

  /** The sorted left side, once the right side is sorted too, is still
      sorted and still at or below the pivot. */
  lemma LeftSide(w: seq<int>, left: seq<int>, right: seq<int>, low: int, high: int, p: int)
    requires 0 <= low <= p <= high < |w|
    requires forall k :: low <= k < p ==> w[k] <= w[p]
    requires SameOutside(w, left, low, p - 1) && multiset(left) == multiset(w)
    requires Sorted(left, low, p - 1)
    requires SameOutside(left, right, p + 1, high)
    ensures right[p] == w[p]
    ensures forall k :: low <= k < p ==> right[k] <= right[p]
    ensures Sorted(right, low, p - 1)
  {
    SliceMultiset(w, left, low, p);
    BoundsSurvive(w, left, low, p, w[p]);
    assert forall k :: low <= k < p ==> right[k] == left[k];
  }

  /** The sorted right side stays above the pivot. */
  lemma RightSide(w: seq<int>, left: seq<int>, right: seq<int>, low: int, high: int, p: int)
    requires 0 <= low <= p <= high < |w|
    requires forall k :: p < k <= high ==> w[k] > w[p]
    requires SameOutside(w, left, low, p - 1)
    requires SameOutside(left, right, p + 1, high) && multiset(right) == multiset(left)
    ensures right[p] == w[p]
    ensures forall k :: p < k <= high ==> right[k] > right[p]
  {
    assert forall k :: p < k <= high ==> left[k] == w[k];
    SliceMultiset(left, right, p + 1, high + 1);
    BoundsSurvive(left, right, p + 1, high + 1, w[p]);
  }

  /** Three steps that each permute inside [low, high] permute inside it together. */
  lemma GlueFrame(v: seq<int>, w: seq<int>, left: seq<int>, right: seq<int>, low: int, high: int, p: int)
    requires 0 <= low <= p <= high < |v|
    requires SameOutside(v, w, low, high) && multiset(w) == multiset(v)
    requires SameOutside(w, left, low, p - 1) && multiset(left) == multiset(w)
    requires SameOutside(left, right, p + 1, high) && multiset(right) == multiset(left)
    ensures SameOutside(v, right, low, high) && multiset(right) == multiset(v)
    ensures multiset(right[low..high + 1]) == multiset(v[low..high + 1])
  {
    SliceMultiset(v, right, low, high + 1);
  }

  /** Sorted sides around a pivot that splits them make a sorted range. */
  lemma GlueSorted(s: seq<int>, low: int, high: int, p: int)
    requires 0 <= low <= p <= high < |s|
    requires forall k :: low <= k < p ==> s[k] <= s[p]
    requires forall k :: p < k <= high ==> s[k] > s[p]
    requires Sorted(s, low, p - 1) && Sorted(s, p + 1, high)
    ensures Sorted(s, low, high)
  {
  }

  /** quick_sort_OMP (OMP_Qsort.cpp:137-163) with its tasks run one after
      the other: a range shorter than `limit` goes to quick_sort; a longer
      one is partitioned and each side recursed on. */
  method QuickSortOmp(v: seq<int>, low: int, high: int, limit: int) returns (w: seq<int>)
    requires low >= high || (0 <= low && high < |v|)
    ensures SameOutside(v, w, low, high) && multiset(w) == multiset(v)
    ensures low < high ==> multiset(w[low..high + 1]) == multiset(v[low..high + 1])
    ensures Sorted(w, low, high)
    ensures low >= high ==> w == v
    decreases high - low
  {
    w := v;
    if low < high {
      if high - low < limit {
        w := QuickSort(v, low, high);
      } else {
        var p;
        w, p := Partition(v, low, high);
        var left := QuickSortOmp(w, low, p - 1, limit);
        var right := QuickSortOmp(left, p + 1, high, limit);
        Glue(v, w, low, high, p, left, right);
        w := right;
      }
    }
  }

  /** Two ascending sequences holding the same multiset are equal. */
  lemma {:induction false} AscendingUnique(a: seq<int>, b: seq<int>)
    requires Ascending(a) && Ascending(b) && multiset(a) == multiset(b)
    ensures a == b
    decreases |a|
  {
    assert |b| == |multiset(b)| == |multiset(a)| == |a|;
    if |a| > 0 {
      HeadsAndTails(a, b);
      AscendingUnique(a[1..], b[1..]);
      SameHeadAndTail(a, b);
    }
  }

  /** Two ascending sequences with the same non-empty multiset start alike,
      and what follows is again ascending with equal multisets. */
  lemma HeadsAndTails(a: seq<int>, b: seq<int>)
    requires |a| > 0 && |b| > 0
    requires Ascending(a) && Ascending(b) && multiset(a) == multiset(b)
    ensures a[0] == b[0]
    ensures Ascending(a[1..]) && Ascending(b[1..]) && multiset(a[1..]) == multiset(b[1..])
  {
    HeadIsLeast(a, b[0]);
    HeadIsLeast(b, a[0]);
    DropHead(a);
    DropHead(b);
    AscendingTail(a);
    AscendingTail(b);
  }

  lemma SameHeadAndTail(a: seq<int>, b: seq<int>)
    requires |a| > 0 && |b| > 0 && a[0] == b[0] && a[1..] == b[1..]
    ensures a == b
  {
    assert a == [a[0]] + a[1..];
    assert b == [b[0]] + b[1..];
  }

  /** The first entry of an ascending sequence is its least. */
  lemma HeadIsLeast(a: seq<int>, x: int)
    requires Ascending(a) && x in multiset(a)
    ensures a[0] <= x
  {
    var i :| 0 <= i < |a| && a[i] == x;
    if i > 0 {
      assert a[0] <= a[i];
    }
  }

  lemma AscendingTail(a: seq<int>)
    requires |a| > 0 && Ascending(a)
    ensures Ascending(a[1..])
  {
    forall i, j | 0 <= i < j < |a| - 1
      ensures a[1..][i] <= a[1..][j]
    {
      assert a[1..][i] == a[i + 1] && a[1..][j] == a[j + 1];
    }
  }

  lemma DropHead(a: seq<int>)
    requires |a| > 0
    ensures multiset(a[1..]) == multiset(a) - multiset{a[0]}
  {
    assert a == [a[0]] + a[1..];
  }

  /** Two sorts of the same range of the same vector give the same vector. */
  lemma SortedPermUnique(v: seq<int>, w1: seq<int>, w2: seq<int>, low: int, high: int)
    requires 0 <= low < high < |v|
    requires SameOutside(v, w1, low, high) && multiset(w1[low..high + 1]) == multiset(v[low..high + 1])
    requires SameOutside(v, w2, low, high) && multiset(w2[low..high + 1]) == multiset(v[low..high + 1])
    requires Sorted(w1, low, high) && Sorted(w2, low, high)
    ensures w1 == w2
  {
    AscendingUnique(w1[low..high + 1], w2[low..high + 1]);
    forall k | 0 <= k < |v|
      ensures w1[k] == w2[k]
    {
      if low <= k <= high {
        assert w1[low..high + 1][k - low] == w1[k];
        assert w2[low..high + 1][k - low] == w2[k];
      }
    }
  }

  /** Whatever the cut-off, quick_sort_OMP run sequentially produces exactly
      the vector quick_sort produces. */
  method SortsAgree(v: seq<int>, low: int, high: int, limit: int) returns (seqSorted: seq<int>, ompSorted: seq<int>)
    requires low >= high || (0 <= low && high < |v|)
    ensures seqSorted == ompSorted
    ensures Sorted(seqSorted, low, high)
  {
    seqSorted := QuickSort(v, low, high);
    ompSorted := QuickSortOmp(v, low, high, limit);
    if low < high {
      SortedPermUnique(v, seqSorted, ompSorted, low, high);
    }
  }

}
