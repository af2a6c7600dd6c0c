/**
 * The merge sort of mergesort.c over a range of an array of elements, with a
 * comparator `compare` that returns a positive value when its first argument
 * belongs after its second. The two-thread driver is modelled sequentially:
 * sort the left half, sort the right half, then merge.
 */
module MergeSort {

  /** No adjacent pair is out of order. */
  predicate Sorted<T>(s: seq<T>, compare: (T, T) -> int)
  {
    forall i :: 0 <= i < |s| - 1 ==> compare(s[i], s[i + 1]) <= 0
  }

  /** Never both x after y and y after x: what the merge needs of a comparator. */
  ghost predicate Asymmetric<T(!new)>(compare: (T, T) -> int)
  {
    forall x, y :: compare(x, y) > 0 ==> compare(y, x) <= 0
  }

  /**
   * The merge of merge_sort_combine: repeatedly take the smaller head, and on
   * a tie (compare <= 0) the head of the left half.
   */
  function Merge<T>(l: seq<T>, r: seq<T>, compare: (T, T) -> int): (m: seq<T>)
    ensures |m| == |l| + |r|
    decreases |l| + |r|
  {
    if l == [] then r
    else if r == [] then l
    else if compare(l[0], r[0]) > 0 then [r[0]] + Merge(l, r[1..], compare)
    else [l[0]] + Merge(l[1..], r, compare)
  }

  /** The merge is a permutation of its two halves together. */
  lemma {:induction false} MergePermutation<T>(l: seq<T>, r: seq<T>, compare: (T, T) -> int)
    ensures multiset(Merge(l, r, compare)) == multiset(l) + multiset(r)
    decreases |l| + |r|
  {
    if l != [] && r != [] {
      if compare(l[0], r[0]) > 0 {
        MergePermutation(l, r[1..], compare);
        MultisetHeadTail(r);
      } else {
        MergePermutation(l[1..], r, compare);
        MultisetHeadTail(l);
      }
    }
  }

  lemma MultisetHeadTail<T>(s: seq<T>)
    requires s != []
    ensures multiset(s) == multiset{s[0]} + multiset(s[1..])
  {
    assert s == [s[0]] + s[1..];
  }

  lemma MultisetSplit<T>(s: seq<T>, k: nat)
    requires k <= |s|
    ensures multiset(s) == multiset(s[..k]) + multiset(s[k..])
  {
    assert s == s[..k] + s[k..];
  }

  /** The split point of merge_sort and merge_sort_combine: the left half gets the extra item. */
  function Split(n: nat): (idx: nat)
    requires n >= 1
    ensures 1 <= idx <= n && n - idx <= idx <= n - idx + 1
  {
    (n - 1) / 2 + 1
  }

  /** What merge_sort does to a range: split, sort both halves, merge; two items are swapped if out of order. */
  function MergeSortSpec<T>(s: seq<T>, compare: (T, T) -> int): (r: seq<T>)
    ensures |r| == |s|
    decreases |s|
  {
    if |s| > 2 then
      var idx := Split(|s|);
      Merge(MergeSortSpec(s[..idx], compare), MergeSortSpec(s[idx..], compare), compare)
    else if |s| == 2 && compare(s[0], s[1]) > 0 then [s[1], s[0]]
    else s
  }

  /** Merging two sorted sequences gives a sorted sequence, for an asymmetric comparator. */
  lemma {:induction false} MergeSorted<T(!new)>(l: seq<T>, r: seq<T>, compare: (T, T) -> int)
    requires Asymmetric(compare) && Sorted(l, compare) && Sorted(r, compare)
    ensures Sorted(Merge(l, r, compare), compare)
    decreases |l| + |r|
  {
    if l != [] && r != [] {
      var m := Merge(l, r, compare);
      if compare(l[0], r[0]) > 0 {
        var r' := r[1..];
        MergeSorted(l, r', compare);
        var rest := Merge(l, r', compare);
        assert rest[0] == l[0] || rest[0] == r'[0];
        assert m == [r[0]] + rest;
        assert compare(r[0], rest[0]) <= 0 by {
          if r' != [] && rest[0] == r'[0] && compare(l[0], r'[0]) > 0 {
            assert compare(r[0], r[1]) <= 0;
          }
        }
      } else {
        var l' := l[1..];
        MergeSorted(l', r, compare);
        var rest := Merge(l', r, compare);
        assert m == [l[0]] + rest;
        assert compare(l[0], rest[0]) <= 0 by {
          if l' != [] && !(compare(l'[0], r[0]) > 0) {
            assert compare(l[0], l[1]) <= 0;
          }
        }
      }
    }
  }

  /** merge_sort leaves its range a permutation of what it held. */
  lemma {:induction false} MergeSortPermutation<T>(s: seq<T>, compare: (T, T) -> int)
    ensures multiset(MergeSortSpec(s, compare)) == multiset(s)
    decreases |s|
  {
    if |s| > 2 {
      var idx := Split(|s|);
      MergeSortPermutation(s[..idx], compare);
      MergeSortPermutation(s[idx..], compare);
      MergePermutation(MergeSortSpec(s[..idx], compare), MergeSortSpec(s[idx..], compare), compare);
      MultisetSplit(s, idx);
    } else if |s| == 2 {
      assert s == [s[0], s[1]];
    }
  }

  /** merge_sort leaves its range sorted, for an asymmetric comparator. */
  lemma {:induction false} MergeSortSorted<T(!new)>(s: seq<T>, compare: (T, T) -> int)
    requires Asymmetric(compare)
    ensures Sorted(MergeSortSpec(s, compare), compare)
    decreases |s|
  {
    if |s| > 2 {
      var idx := Split(|s|);
      MergeSortSorted(s[..idx], compare);
      MergeSortSorted(s[idx..], compare);
      MergeSorted(MergeSortSpec(s[..idx], compare), MergeSortSpec(s[idx..], compare), compare);
    }
  }

  /**
   * The two-item base case agrees with merging the two one-item halves, and
   * one sort of the halves followed by a merge is what merge_sort does to a
   * range of any non-empty length: the split of the driver is the split of the sort.
   */
  lemma HalvesThenMerge<T>(s: seq<T>, compare: (T, T) -> int)
    requires |s| >= 1
    ensures var idx := Split(|s|);
      MergeSortSpec(s, compare) == Merge(MergeSortSpec(s[..idx], compare), MergeSortSpec(s[idx..], compare), compare)
  {
    if |s| == 1 {
      HalvesOfOne(s, compare);
    } else if |s| == 2 {
      HalvesOfTwo(s, compare);
    }
  }

  lemma HalvesOfOne<T>(s: seq<T>, compare: (T, T) -> int)
    requires |s| == 1
    ensures MergeSortSpec(s, compare) == Merge(MergeSortSpec(s[..1], compare), MergeSortSpec(s[1..], compare), compare)
  {
    assert s[..1] == s && s[1..] == [];
  }

  lemma HalvesOfTwo<T>(s: seq<T>, compare: (T, T) -> int)
    requires |s| == 2
    ensures MergeSortSpec(s, compare) == Merge(MergeSortSpec(s[..1], compare), MergeSortSpec(s[1..], compare), compare)
  {
    var x, y := s[0], s[1];
    assert s[..1] == [x] && s[1..] == [y];
    assert Merge([y], [], compare) == [y];
    assert Merge([], [y], compare) == [y];
    assert s == [x, y];
  }

  /** The merge m of two halves continues, from position i + j, as the merge of l[i..] and r[j..]. */
  ghost predicate MergeRest<T>(l: seq<T>, r: seq<T>, i: nat, j: nat, m: seq<T>, compare: (T, T) -> int)
  {
    i <= |l| && j <= |r| && |m| == |l| + |r| && Merge(l[i..], r[j..], compare) == m[i + j..]
  }

  /** When the left head is not after the right one (or r[j..] is used up), the next item of the merge is l[i]. */
  lemma MergeTakeLeft<T>(l: seq<T>, r: seq<T>, i: nat, j: nat, m: seq<T>, compare: (T, T) -> int)
    requires MergeRest(l, r, i, j, m, compare) && i < |l|
    requires j == |r| || !(compare(l[i], r[j]) > 0)
    ensures m[i + j] == l[i] && MergeRest(l, r, i + 1, j, m, compare)
  {
    assert l[i..][1..] == l[i + 1..];
    if j == |r| {
      assert Merge(l[i + 1..], r[j..], compare) == l[i + 1..];
      assert l[i..] == [l[i]] + l[i + 1..];
    }
    assert m[i + j..] == [l[i]] + Merge(l[i + 1..], r[j..], compare);
    assert m[i + j..][1..] == m[i + 1 + j..];
  }

  /** When the left head is after the right one (or l[i..] is used up), the next item of the merge is r[j]. */
  lemma MergeTakeRight<T>(l: seq<T>, r: seq<T>, i: nat, j: nat, m: seq<T>, compare: (T, T) -> int)
    requires MergeRest(l, r, i, j, m, compare) && j < |r|
    requires i == |l| || compare(l[i], r[j]) > 0
    ensures m[i + j] == r[j] && MergeRest(l, r, i, j + 1, m, compare)
  {
    assert r[j..][1..] == r[j + 1..];
    if i == |l| {
      assert Merge(l[i..], r[j + 1..], compare) == r[j + 1..];
      assert r[j..] == [r[j]] + r[j + 1..];
    }
    assert m[i + j..] == [r[j]] + Merge(l[i..], r[j + 1..], compare);
    assert m[i + j..][1..] == m[i + (j + 1)..];
  }

  /** The scratch buffer of merge_sort_combine: a fresh copy of the n items from lo. */
  method CopyRange<T>(a: array<T>, lo: nat, n: nat) returns (buffer: array<T>)
    requires lo + n <= a.Length
    ensures fresh(buffer) && buffer.Length == n
    ensures buffer[..] == a[lo..lo + n]
  {
    buffer := new T[n](i requires 0 <= i < n reads a => a[lo + i]);
  }

  /**
   * The two-cursor loop of merge_sort_combine: buffer receives the merge of
   * the two halves. The halves are read as values: the array they come from
   * is not written while the loop runs.
   */
  method MergeHalves<T>(left: seq<T>, right: seq<T>, buffer: array<T>, compare: (T, T) -> int)
    requires buffer.Length == |left| + |right|
    modifies buffer
    ensures buffer[..] == Merge(left, right, compare)
  {
    ghost var m := Merge(left, right, compare);
    var p1, p2 := 0, 0;
    while p1 < |left| || p2 < |right|
      invariant MergeRest(left, right, p1, p2, m, compare)
      invariant forall k :: 0 <= k < p1 + p2 ==> buffer[k] == m[k]
      decreases |left| + |right| - p1 - p2
    {
      if p1 < |left| && p2 < |right| {
        if compare(left[p1], right[p2]) > 0 {
          MergeTakeRight(left, right, p1, p2, m, compare);
          buffer[p1 + p2] := right[p2];
          p2 := p2 + 1;
        } else {
          MergeTakeLeft(left, right, p1, p2, m, compare);
          buffer[p1 + p2] := left[p1];
          p1 := p1 + 1;
        }
      } else if p1 < |left| {
        MergeTakeLeft(left, right, p1, p2, m, compare);
        buffer[p1 + p2] := left[p1];
        p1 := p1 + 1;
      } else {
        MergeTakeRight(left, right, p1, p2, m, compare);
        buffer[p1 + p2] := right[p2];
        p2 := p2 + 1;
      }
    }
    assert buffer[..] == m;
  }

  /**
   * The merge phase of merge_sort_combine into a fresh scratch buffer: the
   * halves [lo, mid) and [mid, hi); the array is only read.
   */
  method MergeIntoBuffer<T>(a: array<T>, lo: nat, mid: nat, hi: nat, compare: (T, T) -> int) returns (buffer: array<T>)
    requires lo <= mid <= hi <= a.Length
    ensures fresh(buffer)
    ensures buffer[..] == Merge(a[lo..mid], a[mid..hi], compare)
  {
    buffer := CopyRange(a, lo, hi - lo);
    var left, right := a[lo..mid], a[mid..hi];
    MergeHalves(left, right, buffer, compare);
  }

  /** memcpy of the scratch buffer back over the n items from lo; nothing else is written. */
  method CopyBack<T>(buffer: array<T>, a: array<T>, lo: nat)
    requires buffer != a && lo + buffer.Length <= a.Length
    modifies a
    ensures forall j :: 0 <= j < buffer.Length ==> a[lo + j] == buffer[j]
    ensures forall j :: 0 <= j < a.Length && !(lo <= j < lo + buffer.Length) ==> a[j] == old(a[j])
  {
    for k := 0 to buffer.Length
      invariant forall j :: 0 <= j < k ==> a[lo + j] == buffer[j]
      invariant forall j :: 0 <= j < a.Length && !(lo <= j < lo + k) ==> a[j] == old(a[j])
    {
      a[lo + k] := buffer[k];
    }
  }

  /** A sequence s equal to t outside [lo, hi) and to b inside it: the three slices read back. */
  lemma Spliced<T>(s: seq<T>, t: seq<T>, b: seq<T>, lo: nat, hi: nat)
    requires |s| == |t| && hi == lo + |b| && hi <= |s|
    requires forall j :: 0 <= j < |b| ==> s[lo + j] == b[j]
    requires forall j :: 0 <= j < |s| && !(lo <= j < hi) ==> s[j] == t[j]
    ensures s[lo..hi] == b && s[..lo] == t[..lo] && s[hi..] == t[hi..]
  {
    assert forall j :: 0 <= j < |b| ==> s[lo..hi][j] == s[lo + j];
    assert forall j :: 0 <= j < |s| - hi ==> s[hi..][j] == s[hi + j] && t[hi..][j] == t[hi + j];
  }

  /**
   * merge_sort_combine on the items in [lo, hi): merge the sorted halves
   * [lo, mid) and [mid, hi), mid = lo + Split(hi - lo) as merge_sort_combine
   * computes it, through a scratch
   * buffer, then copy the buffer back over the range.
   */
  method MergeSortCombine<T>(a: array<T>, lo: nat, mid: nat, hi: nat, compare: (T, T) -> int)
    requires lo < hi <= a.Length && mid == lo + Split(hi - lo)
    modifies a
    ensures a[lo..hi] == Merge(old(a[lo..mid]), old(a[mid..hi]), compare)
    ensures a[..lo] == old(a[..lo]) && a[hi..] == old(a[hi..])
  {
    ghost var a0 := a[..];
    var buffer := MergeIntoBuffer(a, lo, mid, hi, compare);
    ghost var merged := buffer[..];
    CopyBack(buffer, a, lo);
    Spliced(a[..], a0, merged, lo, hi);
  }

  /** Two sequences that agree up to k agree on every slice below k. */
  lemma SliceFromPrefix<T>(s: seq<T>, t: seq<T>, k: nat, i: nat, j: nat)
    requires |s| == |t| && i <= j <= k <= |s| && s[..k] == t[..k]
    ensures s[i..j] == t[i..j]
  {
    assert s[i..j] == s[..k][i..j] && t[i..j] == t[..k][i..j];
  }

  /** Two sequences that agree up to k agree up to any j <= k. */
  lemma PrefixFromPrefix<T>(s: seq<T>, t: seq<T>, k: nat, j: nat)
    requires |s| == |t| && j <= k <= |s| && s[..k] == t[..k]
    ensures s[..j] == t[..j]
  {
    assert s[..j] == s[..k][..j] && t[..j] == t[..k][..j];
  }

  /** Two sequences that agree from k on agree on every slice above k. */
  lemma SliceFromSuffix<T>(s: seq<T>, t: seq<T>, k: nat, i: nat, j: nat)
    requires |s| == |t| && k <= i <= j <= |s| && s[k..] == t[k..]
    ensures s[i..j] == t[i..j]
  {
    forall m | i <= m < j
      ensures s[m] == t[m]
    {
      assert s[m] == s[k..][m - k] && t[m] == t[k..][m - k];
    }
  }

  /** Two sequences that agree from k on agree from any i >= k on. */
  lemma SuffixFromSuffix<T>(s: seq<T>, t: seq<T>, k: nat, i: nat)
    requires |s| == |t| && k <= i <= |s| && s[k..] == t[k..]
    ensures s[i..] == t[i..]
  {
    assert s[i..] == s[k..][i - k..] && t[i..] == t[k..][i - k..];
  }

  /** merge_sort on the range [lo, hi) of a sequence is the merge of its sorted halves. */
  lemma SpecOfRange<T>(a0: seq<T>, lo: nat, mid: nat, hi: nat, compare: (T, T) -> int)
    requires lo < hi <= |a0| && mid == lo + Split(hi - lo)
    ensures MergeSortSpec(a0[lo..hi], compare) == Merge(MergeSortSpec(a0[lo..mid], compare), MergeSortSpec(a0[mid..hi], compare), compare)
  {
    HalvesThenMerge(a0[lo..hi], compare);
    SplitRange(a0, lo, mid, hi, Split(|a0[lo..hi]|));
  }

  /** The two halves of a slice, as slices of the whole. */
  lemma SplitRange<T>(a0: seq<T>, lo: nat, mid: nat, hi: nat, k: nat)
    requires lo <= mid <= hi <= |a0| && k == mid - lo
    ensures a0[lo..hi][..k] == a0[lo..mid] && a0[lo..hi][k..] == a0[mid..hi]
  {
  }

  /**
   * One split of merge_sort on whole-array snapshots: sorting the left half,
   * then the right half, then merging sorts the range and leaves the rest of
   * the array as it was.
   */
  lemma SortStep<T>(a0: seq<T>, a1: seq<T>, a2: seq<T>, a3: seq<T>, lo: nat, mid: nat, hi: nat, compare: (T, T) -> int)
    requires |a1| == |a0| && |a2| == |a0| && |a3| == |a0| && lo < hi <= |a0| && mid == lo + Split(hi - lo)
    requires a1[lo..mid] == MergeSortSpec(a0[lo..mid], compare)
    requires a1[..lo] == a0[..lo] && a1[mid..] == a0[mid..]
    requires a2[mid..hi] == MergeSortSpec(a1[mid..hi], compare)
    requires a2[..mid] == a1[..mid] && a2[hi..] == a1[hi..]
    requires a3[lo..hi] == Merge(a2[lo..mid], a2[mid..hi], compare)
    requires a3[..lo] == a2[..lo] && a3[hi..] == a2[hi..]
    ensures a3[lo..hi] == MergeSortSpec(a0[lo..hi], compare)
    ensures a3[..lo] == a0[..lo] && a3[hi..] == a0[hi..]
  {
    SliceFromPrefix(a2, a1, mid, lo, mid);
    SliceFromSuffix(a1, a0, mid, mid, hi);
    PrefixFromPrefix(a2, a1, mid, lo);
    SuffixFromSuffix(a1, a0, mid, hi);
    SpecOfRange(a0, lo, mid, hi, compare);
  }

  /** The base cases of merge_sort: at most two items, swapped when out of order. */
  lemma SortPair<T>(a0: seq<T>, a1: seq<T>, lo: nat, hi: nat, compare: (T, T) -> int)
    requires |a1| == |a0| && lo <= hi <= |a0| && hi - lo <= 2
    requires hi - lo == 2 && compare(a0[lo], a0[lo + 1]) > 0 ==> a1 == a0[lo := a0[lo + 1]][lo + 1 := a0[lo]]
    requires !(hi - lo == 2 && compare(a0[lo], a0[lo + 1]) > 0) ==> a1 == a0
    ensures a1[lo..hi] == MergeSortSpec(a0[lo..hi], compare)
    ensures a1[..lo] == a0[..lo] && a1[hi..] == a0[hi..]
  {
    if hi - lo == 2 && compare(a0[lo], a0[lo + 1]) > 0 {
      assert a1[lo..hi] == [a0[lo + 1], a0[lo]];
      assert a1[..lo] == a0[..lo];
      assert a1[hi..] == a0[hi..];
    }
  }

  /** merge_sort: sort the items in [lo, hi) in place. */
  method MergeSortRange<T>(a: array<T>, lo: nat, hi: nat, compare: (T, T) -> int)
    requires lo <= hi <= a.Length
    modifies a
    ensures a[lo..hi] == MergeSortSpec(old(a[lo..hi]), compare)
    ensures a[..lo] == old(a[..lo]) && a[hi..] == old(a[hi..])
    decreases hi - lo
  {
    ghost var a0 := a[..];
    if hi - lo > 2 {
      var mid := lo + Split(hi - lo);
      MergeSortRange(a, lo, mid, compare);
      ghost var a1 := a[..];
      MergeSortRange(a, mid, hi, compare);
      ghost var a2 := a[..];
      MergeSortCombine(a, lo, mid, hi, compare);
      SortStep(a0, a1, a2, a[..], lo, mid, hi, compare);
    } else {
      if hi - lo == 2 && compare(a[lo], a[lo + 1]) > 0 {
        a[lo], a[lo + 1] := a[lo + 1], a[lo];
      }
      SortPair(a0, a[..], lo, hi, compare);
    }
  }

  /**
   * The element counts the threads of the `mergesort` driver pass to merge_sort,
   * as written: [0, idx] and [idx + 1, size - 1] with idx = (size - 1) / 2 in
   * C's truncating division, and each count is idx2 - idx1 + 1.
   */
  function DriverCounts(size: int): (counts: (int, int))
    ensures counts.0 + counts.1 == size
  {
    var idx := if size - 1 >= 0 then (size - 1) / 2 else -((1 - size) / 2);
    (idx - 0 + 1, (size - 1) - (idx + 1) + 1)
  }

  /** size_t, the parameter type of merge_sort's count: a negative count wraps around. */
  function AsSizeT(n: int): nat
  {
    n % 0x1_0000_0000_0000_0000
  }

  /**
   * For an empty array the driver hands the second thread the count -1, which
   * merge_sort receives as 2^64 - 1 items: it recurses into memory the array does not have.
   */
  lemma DriverCountsEmpty()
    ensures DriverCounts(0) == (1, -1)
    ensures AsSizeT(DriverCounts(0).1) == 0xFFFF_FFFF_FFFF_FFFF > 2
  {
  }

  /** For any non-empty array the two counts are the halves of merge_sort_combine's split. */
  lemma DriverCountsSplit(size: int)
    requires size >= 1
    ensures DriverCounts(size) == (Split(size), size - Split(size))
  {
  }

  /**
   * `mergesort`, run sequentially, with an empty array left as it is: the two
   * halves are sorted by the two thread_sort calls, then thread_merge combines them.
   */
  method Sort<T>(a: array<T>, size: int, compare: (T, T) -> int)
    requires size <= a.Length
    modifies a
    ensures size <= 0 ==> a[..] == old(a[..])
    ensures size > 0 ==> a[..size] == MergeSortSpec(old(a[..size]), compare) && a[size..] == old(a[size..])
  {
    if size <= 0 {
      return;
    }
    var counts := DriverCounts(size);
    DriverCountsSplit(size);
    var n: nat, mid: nat := size, counts.0;
    ghost var a0 := a[..];
    MergeSortRange(a, 0, mid, compare);
    ghost var a1 := a[..];
    assert mid + counts.1 == n;
    MergeSortRange(a, mid, n, compare);
    ghost var a2 := a[..];
    MergeSortCombine(a, 0, mid, n, compare);
    SortStep(a0, a1, a2, a[..], 0, mid, n, compare);
    FromZero(a0, n);
    FromZero(a[..], n);
  }

  lemma FromZero<T>(s: seq<T>, k: nat)
    requires k <= |s|
    ensures s[0..k] == s[..k]
  {
  }

  /** ms_compare_ints: 1 when the first integer is the greater. */
  function CompareInts(x: int, y: int): (r: int)
    ensures r == 1 <==> x > y
    ensures r == 0 || r == 1
  {
    if x > y then 1 else 0
  }

  /** Sorted under ms_compare_ints means ascending everywhere, not only between neighbours. */
  lemma {:induction false} SortedIntsAscending(s: seq<int>)
    ensures Sorted(s, CompareInts) <==> forall i, j :: 0 <= i < j < |s| ==> s[i] <= s[j]
    decreases |s|
  {
    if |s| > 1 {
      SortedIntsAscending(s[1..]);
      if Sorted(s, CompareInts) {
        assert Sorted(s[1..], CompareInts) by {
          forall i | 0 <= i < |s[1..]| - 1
            ensures CompareInts(s[1..][i], s[1..][i + 1]) <= 0
          {
            assert s[1..][i] == s[i + 1] && s[1..][i + 1] == s[i + 2];
          }
        }
        forall i, j | 0 <= i < j < |s|
          ensures s[i] <= s[j]
        {
          if i > 0 {
            assert s[1..][i - 1] <= s[1..][j - 1];
          } else {
            assert CompareInts(s[0], s[1]) <= 0;
            if j > 1 {
              assert s[1..][0] <= s[1..][j - 1];
            }
          }
        }
      }
    }
  }

  /** ms_compare_ints is asymmetric, so merge_sort sorts integers. */
  lemma CompareIntsAsymmetric()
    ensures Asymmetric(CompareInts)
  {
  }
}
