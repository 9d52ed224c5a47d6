/** The sort-then-search utility that every store runs over its snapshot:
    Lomuto partition with the last element as pivot, quicksort recursing on
    the two sides of the pivot, and a binary search that narrows `[low,
    high]` by halves. The source runs the two recursive calls as parallel
    sections and the search once per thread; the sections touch disjoint
    index ranges and every thread runs the same search, so one sequential
    run computes the same array and the same index. Arrays are `seq` values
    updated in place by index. */
module Sorting {

  /** Keys never decrease from left to right. */
  predicate SortedBy<T>(s: seq<T>, key: T -> int) {
    forall i, j :: 0 <= i < j < |s| ==> key(s[i]) <= key(s[j])
  }

  /** Exchange two positions (the `temp` three-step swap). */
  function Swap<T>(s: seq<T>, i: nat, j: nat): (r: seq<T>)
    requires i < |s| && j < |s|
    ensures |r| == |s| && r[i] == s[j] && r[j] == s[i]
    ensures forall k :: 0 <= k < |s| && k != i && k != j ==> r[k] == s[k]
  {
    s[i := s[j]][j := s[i]]
  }

  /** A swap is a permutation. */
  lemma SwapPermutes<T>(s: seq<T>, i: nat, j: nat)
    requires i < |s| && j < |s|
    ensures multiset(Swap(s, i, j)) == multiset(s)
  {
  }

  /** Swapping inside `[lo, hi]` keeps the multiset of the window. */
  lemma SwapInWindow<T>(s: seq<T>, i: nat, j: nat, lo: nat, hi: nat)
    requires lo <= i <= hi && lo <= j <= hi && hi < |s|
    ensures multiset(Swap(s, i, j)[lo..hi + 1]) == multiset(s[lo..hi + 1])
  {
    var r := Swap(s, i, j);
    assert r[lo..hi + 1] == Swap(s[lo..hi + 1], i - lo, j - lo);
    SwapPermutes(s[lo..hi + 1], i - lo, j - lo);
  }

  /** Every key of `a` is below `bound` when `a` has the same elements as a
      sequence whose keys all are. */
  lemma KeysBelow<T>(a: seq<T>, b: seq<T>, key: T -> int, bound: int)
    requires multiset(a) == multiset(b)
    requires forall k :: 0 <= k < |b| ==> key(b[k]) < bound
    ensures forall k :: 0 <= k < |a| ==> key(a[k]) < bound
  {
    forall k | 0 <= k < |a| ensures key(a[k]) < bound {
      assert a[k] in multiset(b);
    }
  }

  /** Every key of `a` is at least `bound` when `a` has the same elements as
      a sequence whose keys all are. */
  lemma KeysAtLeast<T>(a: seq<T>, b: seq<T>, key: T -> int, bound: int)
    requires multiset(a) == multiset(b)
    requires forall k :: 0 <= k < |b| ==> bound <= key(b[k])
    ensures forall k :: 0 <= k < |a| ==> bound <= key(a[k])
  {
    forall k | 0 <= k < |a| ensures bound <= key(a[k]) {
      assert a[k] in multiset(b);
    }
  }

  /** One pass of the `for (j = low; j < high; j++)` loop of particion*:
      an element below the pivot is swapped to the end of the lower part,
      any other stays. Before and after, `r` is `s` with the window `[lo,
      hi]` permuted and the rest untouched, keys in `[lo, i]` are below the
      pivot and keys in `(i, j)` are not. */
  method ScanStep<T>(s: seq<T>, r: seq<T>, key: T -> int, pivot: int, lo: nat, hi: nat, i: int, j: nat)
    returns (r': seq<T>, i': int)
    requires lo - 1 <= i < j < hi < |s| && |r| == |s|
    requires forall k :: 0 <= k < lo ==> r[k] == s[k]
    requires forall k :: hi <= k < |s| ==> r[k] == s[k]
    requires multiset(r[lo..hi + 1]) == multiset(s[lo..hi + 1])
    requires forall k :: lo <= k <= i ==> key(r[k]) < pivot
    requires forall k :: i < k < j ==> pivot <= key(r[k])
    ensures lo - 1 <= i' < j + 1 <= hi && |r'| == |s|
    ensures forall k :: 0 <= k < lo ==> r'[k] == s[k]
    ensures forall k :: hi <= k < |s| ==> r'[k] == s[k]
    ensures multiset(r'[lo..hi + 1]) == multiset(s[lo..hi + 1])
    ensures forall k :: lo <= k <= i' ==> key(r'[k]) < pivot
    ensures forall k :: i' < k < j + 1 ==> pivot <= key(r'[k])
  {
    if key(r[j]) < pivot {
      i' := i + 1;
      SwapInWindow(r, i', j, lo, hi);
      r' := Swap(r, i', j);
      forall k | i' < k < j + 1 ensures pivot <= key(r'[k]) {
        if k == j {
          assert r'[k] == r[i'];
        }
      }
    } else {
      r', i' := r, i;
    }
  }

  /** The last swap of particion*: the pivot goes just after the lower
      part, which partitions the window around it. */
  method PlacePivot<T>(s: seq<T>, r: seq<T>, key: T -> int, lo: nat, hi: nat, i: int)
    returns (r': seq<T>, p: nat)
    requires lo - 1 <= i < hi < |s| && |r| == |s|
    requires forall k :: 0 <= k < lo ==> r[k] == s[k]
    requires forall k :: hi <= k < |s| ==> r[k] == s[k]
    requires multiset(r[lo..hi + 1]) == multiset(s[lo..hi + 1])
    requires forall k :: lo <= k <= i ==> key(r[k]) < key(s[hi])
    requires forall k :: i < k < hi ==> key(s[hi]) <= key(r[k])
    ensures |r'| == |s|
    ensures lo <= p <= hi
    ensures r'[..lo] == s[..lo] && r'[hi + 1..] == s[hi + 1..]
    ensures multiset(r'[lo..hi + 1]) == multiset(s[lo..hi + 1])
    ensures r'[p] == s[hi]
    ensures forall k :: lo <= k < p ==> key(r'[k]) < key(r'[p])
    ensures forall k :: p < k <= hi ==> key(r'[p]) <= key(r'[k])
  {
    p := i + 1;
    SwapInWindow(r, p, hi, lo, hi);
    r' := Swap(r, p, hi);
    assert r'[..lo] == s[..lo];
    assert r'[hi + 1..] == s[hi + 1..];
    forall k | p < k <= hi ensures key(r'[p]) <= key(r'[k]) {
      if k == hi {
        assert r'[k] == r[p];
      }
    }
  }

  /** particion*: Lomuto partition of `s[lo..hi]` around the key of `s[hi]`.
      The result `p` lies in `[lo, hi]`, holds the pivot, has strictly
      smaller keys to its left and keys at least the pivot's to its right;
      the window is permuted and nothing outside it moves. */
  method Partition<T>(s: seq<T>, key: T -> int, lo: nat, hi: nat) returns (r: seq<T>, p: nat)
    requires lo <= hi < |s|
    ensures |r| == |s|
    ensures lo <= p <= hi
    ensures r[..lo] == s[..lo] && r[hi + 1..] == s[hi + 1..]
    ensures multiset(r[lo..hi + 1]) == multiset(s[lo..hi + 1])
    ensures r[p] == s[hi]
    ensures forall k :: lo <= k < p ==> key(r[k]) < key(r[p])
    ensures forall k :: p < k <= hi ==> key(r[p]) <= key(r[k])
  {
    var pivot := key(s[hi]);
    r := s;
    var i: int := lo - 1;
    var j := lo;
    while j < hi
      invariant lo - 1 <= i < j <= hi
      invariant |r| == |s|
      invariant forall k :: 0 <= k < lo ==> r[k] == s[k]
      invariant forall k :: hi <= k < |s| ==> r[k] == s[k]
      invariant multiset(r[lo..hi + 1]) == multiset(s[lo..hi + 1])
      invariant forall k :: lo <= k <= i ==> key(r[k]) < pivot
      invariant forall k :: i < k < j ==> pivot <= key(r[k])
    {
      r, i := ScanStep(s, r, key, pivot, lo, hi, i, j);
      j := j + 1;
    }
    r, p := PlacePivot(s, r, key, lo, hi, i);
  }

  /** quicksort*Parallel on `s[lo..hi]`: afterwards that window is sorted by
      key and holds the same elements; nothing outside it moves. Empty and
      one-element windows (`lo >= hi`) return at once. */
  method QuickSort<T>(s: seq<T>, key: T -> int, lo: nat, hi: int) returns (r: seq<T>)
    requires lo <= hi + 1 && hi < |s|
    ensures |r| == |s|
    ensures r[..lo] == s[..lo] && r[hi + 1..] == s[hi + 1..]
    ensures multiset(r[lo..hi + 1]) == multiset(s[lo..hi + 1])
    ensures SortedBy(r[lo..hi + 1], key)
    decreases hi - lo
  {
    if lo >= hi {
      return s;
    }
    var s1, p := Partition(s, key, lo, hi);
    var s2 := QuickSort(s1, key, lo, p as int - 1);
    r := QuickSort(s2, key, p + 1, hi);
    Assemble(s, s1, s2, r, key, lo, p, hi);
  }

  /** The bookkeeping after both recursive calls: the left and right sorts
      leave the pivot in place and each other's side untouched, so the whole
      window ends sorted and permuted. */
  lemma Assemble<T>(s: seq<T>, s1: seq<T>, s2: seq<T>, r: seq<T>, key: T -> int, lo: nat, p: nat, hi: nat)
    requires lo <= p <= hi < |s| && |s1| == |s| && |s2| == |s| && |r| == |s|
    requires s1[..lo] == s[..lo] && s1[hi + 1..] == s[hi + 1..]
    requires multiset(s1[lo..hi + 1]) == multiset(s[lo..hi + 1])
    requires forall k :: lo <= k < p ==> key(s1[k]) < key(s1[p])
    requires forall k :: p < k <= hi ==> key(s1[p]) <= key(s1[k])
    requires s2[..lo] == s1[..lo] && s2[p..] == s1[p..]
    requires multiset(s2[lo..p]) == multiset(s1[lo..p])
    requires SortedBy(s2[lo..p], key)
    requires r[..p + 1] == s2[..p + 1] && r[hi + 1..] == s2[hi + 1..]
    requires multiset(r[p + 1..hi + 1]) == multiset(s2[p + 1..hi + 1])
    requires SortedBy(r[p + 1..hi + 1], key)
    ensures r[..lo] == s[..lo] && r[hi + 1..] == s[hi + 1..]
    ensures multiset(r[lo..hi + 1]) == multiset(s[lo..hi + 1])
    ensures SortedBy(r[lo..hi + 1], key)
  {
    var pk := key(s1[p]);
    assert r[..lo] == s2[..p + 1][..lo];
    assert s2[hi + 1..] == s1[p..][hi + 1 - p..];
    var left, right := r[lo..p], r[p + 1..hi + 1];
    assert left == s2[lo..p];
    assert r[p] == s1[p];
    assert s2[p + 1..hi + 1] == s1[p + 1..hi + 1];
    assert r[lo..hi + 1] == left + [r[p]] + right;
    assert s1[lo..hi + 1] == s1[lo..p] + [s1[p]] + s1[p + 1..hi + 1];
    // bounds carried through the recursive sorts
    KeysBelow(left, s1[lo..p], key, pk);
    KeysAtLeast(right, s1[p + 1..hi + 1], key, pk);
    SortedJoin(left, r[p], right, key);
  }

  /** Two sorted runs separated by an element above the first and not above
      the second form one sorted run. */
  lemma SortedJoin<T>(a: seq<T>, x: T, b: seq<T>, key: T -> int)
    requires SortedBy(a, key) && SortedBy(b, key)
    requires forall k :: 0 <= k < |a| ==> key(a[k]) < key(x)
    requires forall k :: 0 <= k < |b| ==> key(x) <= key(b[k])
    ensures SortedBy(a + [x] + b, key)
  {
    var w := a + [x] + b;
    var m := |a|;
    forall i, j | 0 <= i < j < |w| ensures key(w[i]) <= key(w[j]) {
      if j < m {
        assert w[i] == a[i] && w[j] == a[j];
      } else if i > m {
        assert w[i] == b[i - m - 1] && w[j] == b[j - m - 1];
      } else if i == m {
        assert w[j] == b[j - m - 1];
      } else if j == m {
        assert w[i] == a[i];
      } else {
        assert w[i] == a[i] && w[j] == b[j - m - 1];
      }
    }
  }

  /** The call the callers make: `quicksort(a, 0, n - 1)`. The result is a
      permutation of the input, sorted by key. */
  method Sort<T>(s: seq<T>, key: T -> int) returns (r: seq<T>)
    ensures multiset(r) == multiset(s)
    ensures SortedBy(r, key)
  {
    r := QuickSort(s, key, 0, |s| - 1);
    assert r[0..|s|] == r && s[0..|s|] == s;
  }

  /** The window-halving rule of the binary search, as a recursive
      definition over `[lo, hi]`. */
  function Probe<T>(s: seq<T>, key: T -> int, target: int, lo: nat, hi: int): (r: int)
    requires hi < |s|
    ensures r == -1 || (lo <= r <= hi && key(s[r]) == target)
    decreases hi - lo + 1
  {
    if lo > hi then -1
    else
      var mid := lo + (hi - lo) / 2;
      if key(s[mid]) == target then mid
      else if key(s[mid]) < target then Probe(s, key, target, mid + 1, hi)
      else Probe(s, key, target, lo, mid - 1)
  }

  /** On a sorted sequence the halving never discards the window holding a
      matching key. */
  lemma {:induction false} ProbeFinds<T>(s: seq<T>, key: T -> int, target: int, lo: nat, hi: int, k: nat)
    requires hi < |s| && SortedBy(s, key)
    requires lo <= k <= hi && key(s[k]) == target
    ensures Probe(s, key, target, lo, hi) != -1
    decreases hi - lo + 1
  {
    var mid := lo + (hi - lo) / 2;
    if key(s[mid]) == target {
    } else if key(s[mid]) < target {
      ProbeFinds(s, key, target, mid + 1, hi, k);
    } else {
      ProbeFinds(s, key, target, lo, mid - 1, k);
    }
  }

  /** busquedaBinaria*Parallel: -1, or an index whose key is the target; on
      a sorted sequence it is -1 exactly when no element has the target key. */
  method BinarySearch<T>(s: seq<T>, key: T -> int, target: int) returns (r: int)
    ensures r == Probe(s, key, target, 0, |s| - 1)
    ensures r == -1 || (0 <= r < |s| && key(s[r]) == target)
    ensures SortedBy(s, key) ==> (r == -1 <==> forall k :: 0 <= k < |s| ==> key(s[k]) != target)
  {
    var low: nat := 0;
    var high := |s| - 1;
    r := -1;
    while low <= high
      invariant high < |s|
      invariant Probe(s, key, target, low, high) == Probe(s, key, target, 0, |s| - 1)
      decreases high - low + 1
    {
      var mid := low + (high - low) / 2;
      if key(s[mid]) == target {
        r := mid;
        break;
      } else if key(s[mid]) < target {
        low := mid + 1;
      } else {
        high := mid - 1;
      }
    }
    if SortedBy(s, key) && r == -1 {
      forall k | 0 <= k < |s| ensures key(s[k]) != target {
        if key(s[k]) == target {
          ProbeFinds(s, key, target, 0, |s| - 1, k);
        }
      }
    }
  }
}
