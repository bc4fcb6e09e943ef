/** recursive_sum.py: a recursive list sum and the back-to-front merge of two sorted arrays. */
module RecursiveSum {
  import opened Wrappers

  // ---------------------------------------------------------------------------
  // sum(x)
  // ---------------------------------------------------------------------------

  /** Reference total of a list, accumulated from its last element. */
  function Total(x: seq<int>): int
  {
    if |x| == 0 then 0 else Total(x[..|x| - 1]) + x[|x| - 1]
  }

  /** The reference total also peels off the first element. */
  lemma {:induction false} TotalFront(x: seq<int>)
    requires |x| > 0
    ensures Total(x) == x[0] + Total(x[1..])
  {
    if |x| == 1 {
      assert x[..0] == [] && x[1..] == [];
    } else {
      var init := x[..|x| - 1];
      TotalFront(init);
      assert init[1..] == x[1..][..|x| - 2];
    }
  }

  /**
   * `sum(x)`: one element is returned as it is, a longer list is its head plus
   * the sum of its tail. On the empty list `len(x) - 1 < 1` sends it to
   * `x[0]`, which raises IndexError; that outcome is None here.
   */
  function Sum(x: seq<int>): (r: Option<int>)
    ensures r.Some? <==> |x| > 0
    ensures r.Some? ==> r.value == Total(x)
    decreases |x|
  {
    var m := |x| - 1;
    if m < 1 then
      if |x| == 0 then None else Some(x[0])
    else
      TotalFront(x);
      Some(x[0] + Sum(x[1..]).value)
  }

  // ---------------------------------------------------------------------------
  // merge_sort(nums1, m, nums2, n): specification functions
  // ---------------------------------------------------------------------------

  predicate Sorted(s: seq<int>)
  {
    forall i, j :: 0 <= i < j < |s| ==> s[i] <= s[j]
  }

  /**
   * The intended merge of `a` (the first m entries of nums1) and `b` (nums2),
   * built from the back: the larger of the two last elements goes last, and on
   * a tie (the comparison is a strict `>`) the element of `a` goes last.
   */
  function Merged(a: seq<int>, b: seq<int>): (r: seq<int>)
    ensures |r| == |a| + |b|
    decreases |a| + |b|
  {
    if |a| == 0 then b
    else if |b| == 0 then a
    else if b[|b| - 1] > a[|a| - 1] then Merged(a, b[..|b| - 1]) + [b[|b| - 1]]
    else Merged(a[..|a| - 1], b) + [a[|a| - 1]]
  }

  /**
   * How many elements of `b` the comparison loop of merge_sort has not yet
   * placed when it stops (it stops as soon as either side is used up).
   */
  function Leftover(a: seq<int>, b: seq<int>): (k: nat)
    ensures k <= |b|
    decreases |a| + |b|
  {
    if |a| == 0 then |b|
    else if |b| == 0 then 0
    else if b[|b| - 1] > a[|a| - 1] then Leftover(a, b[..|b| - 1])
    else Leftover(a[..|a| - 1], b)
  }

  /**
   * What merge_sort leaves in nums1[0 .. m+n), where `old1` is all of nums1 on
   * entry, `a` its first m entries and `b` the first n entries of nums2. The
   * comparison loop proceeds as in Merged; once `a` is used up, the single
   * tail step copies only the last remaining element of `b`, and the slots
   * below it keep whatever nums1 held on entry.
   */
  function MergedAsWritten(old1: seq<int>, a: seq<int>, b: seq<int>): (r: seq<int>)
    requires |a| + |b| <= |old1|
    ensures |r| == |a| + |b|
    decreases |a| + |b|
  {
    if |a| == 0 then
      (if |b| == 0 then [] else old1[..|b| - 1] + [b[|b| - 1]])
    else if |b| == 0 then a
    else if b[|b| - 1] > a[|a| - 1] then MergedAsWritten(old1, a, b[..|b| - 1]) + [b[|b| - 1]]
    else MergedAsWritten(old1, a[..|a| - 1], b) + [a[|a| - 1]]
  }

  // ---------------------------------------------------------------------------
  // Properties of the intended merge
  // ---------------------------------------------------------------------------

  lemma SnocMultiset(s: seq<int>, x: int)
    ensures multiset(s + [x]) == multiset(s) + multiset{x}
  {
  }

  /** The merge is a permutation of its two inputs together. */
  lemma {:induction false} MergedPermutation(a: seq<int>, b: seq<int>)
    ensures multiset(Merged(a, b)) == multiset(a) + multiset(b)
    decreases |a| + |b|
  {
    if |a| == 0 || |b| == 0 {
    } else {
      var a', b', x;
      if b[|b| - 1] > a[|a| - 1] {
        a', b', x := a, b[..|b| - 1], b[|b| - 1];
        assert b == b' + [x];
        SnocMultiset(b', x);
      } else {
        a', b', x := a[..|a| - 1], b, a[|a| - 1];
        assert a == a' + [x];
        SnocMultiset(a', x);
      }
      assert Merged(a, b) == Merged(a', b') + [x];
      MergedPermutation(a', b');
      SnocMultiset(Merged(a', b'), x);
    }
  }

  /** A common upper bound of both inputs bounds every element of their merge. */
  lemma {:induction false} MergedBounded(a: seq<int>, b: seq<int>, x: int)
    requires forall i :: 0 <= i < |a| ==> a[i] <= x
    requires forall i :: 0 <= i < |b| ==> b[i] <= x
    ensures forall k :: 0 <= k < |a| + |b| ==> Merged(a, b)[k] <= x
    decreases |a| + |b|
  {
    if |a| == 0 || |b| == 0 {
    } else if b[|b| - 1] > a[|a| - 1] {
      MergedBounded(a, b[..|b| - 1], x);
      assert Merged(a, b) == Merged(a, b[..|b| - 1]) + [b[|b| - 1]];
    } else {
      MergedBounded(a[..|a| - 1], b, x);
      assert Merged(a, b) == Merged(a[..|a| - 1], b) + [a[|a| - 1]];
    }
  }

  lemma SortedSnoc(s: seq<int>, x: int)
    requires Sorted(s)
    requires forall k :: 0 <= k < |s| ==> s[k] <= x
    ensures Sorted(s + [x])
  {
  }

  /** Merging two ascending sequences yields an ascending sequence. */
  lemma {:induction false} MergedSorted(a: seq<int>, b: seq<int>)
    requires Sorted(a) && Sorted(b)
    ensures Sorted(Merged(a, b))
    decreases |a| + |b|
  {
    if |a| == 0 || |b| == 0 {
    } else if b[|b| - 1] > a[|a| - 1] {
      var b', x := b[..|b| - 1], b[|b| - 1];
      assert forall i :: 0 <= i < |a| ==> a[i] <= a[|a| - 1];
      MergedSorted(a, b');
      MergedBounded(a, b', x);
      SortedSnoc(Merged(a, b'), x);
    } else {
      var a', x := a[..|a| - 1], a[|a| - 1];
      assert forall i :: 0 <= i < |b| ==> b[i] <= b[|b| - 1];
      MergedSorted(a', b);
      MergedBounded(a', b, x);
      SortedSnoc(Merged(a', b), x);
    }
  }

  // ---------------------------------------------------------------------------
  // What merge_sort actually computes
  // ---------------------------------------------------------------------------

  /**
   * Shape of merge_sort's result `w` against the intended merge `m`, with k
   * the leftover count: from slot k on the two agree; the intended merge
   * starts with b[..k]; and when k >= 1 the written result starts with
   * k - 1 untouched slots of nums1 (`old1`) followed by b[k - 1], so
   * b[0 .. k-1) is never copied.
   */
  predicate Shaped(old1: seq<int>, w: seq<int>, m: seq<int>, b: seq<int>, k: nat)
  {
    |w| == |m| && k <= |w| && k <= |b| && k <= |old1| + 1
    && w[k..] == m[k..]
    && m[..k] == b[..k]
    && (k >= 1 ==> w[..k] == old1[..k - 1] + [b[k - 1]])
  }

  /** Both sides taking the same next element keeps the shape. */
  lemma ShapedSnoc(old1: seq<int>, w: seq<int>, m: seq<int>, b: seq<int>, b': seq<int>, x: int, k: nat)
    requires Shaped(old1, w, m, b', k)
    requires |b'| <= |b| && b'[..k] == b[..k]
    ensures Shaped(old1, w + [x], m + [x], b, k)
  {
    assert (w + [x])[k..] == w[k..] + [x] && (m + [x])[k..] == m[k..] + [x];
    assert (w + [x])[..k] == w[..k] && (m + [x])[..k] == m[..k];
    if k >= 1 {
      assert b'[k - 1] == b'[..k][k - 1];
    }
  }

  /** merge_sort's result has the shape described by Shaped. */
  lemma {:induction false} AsWrittenShape(old1: seq<int>, a: seq<int>, b: seq<int>)
    requires |a| + |b| <= |old1|
    ensures Shaped(old1, MergedAsWritten(old1, a, b), Merged(a, b), b, Leftover(a, b))
    decreases |a| + |b|
  {
    if |a| == 0 || |b| == 0 {
    } else if b[|b| - 1] > a[|a| - 1] {
      var b' := b[..|b| - 1];
      AsWrittenShape(old1, a, b');
      assert b'[..Leftover(a, b')] == b[..Leftover(a, b')];
      ShapedSnoc(old1, MergedAsWritten(old1, a, b'), Merged(a, b'), b, b', b[|b| - 1], Leftover(a, b'));
    } else {
      var a' := a[..|a| - 1];
      AsWrittenShape(old1, a', b);
      ShapedSnoc(old1, MergedAsWritten(old1, a', b), Merged(a', b), b, b, a[|a| - 1], Leftover(a', b));
    }
  }

  /** merge_sort is a full merge when the tail step has at most one element to copy. */
  lemma AsWrittenMergesWhenLeftoverAtMostOne(old1: seq<int>, a: seq<int>, b: seq<int>)
    requires |a| + |b| <= |old1|
    requires Leftover(a, b) <= 1
    ensures MergedAsWritten(old1, a, b) == Merged(a, b)
  {
    AsWrittenShape(old1, a, b);
    var w, m, k := MergedAsWritten(old1, a, b), Merged(a, b), Leftover(a, b);
    assert w == w[..k] + w[k..] && m == m[..k] + m[k..];
  }

  /**
   * For ascending inputs with `a` non-empty, the leftover count is exactly the
   * number of elements of `b` that do not exceed a[0]: ties count, because
   * the loop places the nums1 element first on equal values.
   */
  lemma {:induction false} LeftoverCountsSmallElements(a: seq<int>, b: seq<int>, j: nat)
    requires Sorted(a) && Sorted(b) && |a| > 0 && j <= |b|
    requires j == 0 || b[j - 1] <= a[0]
    requires j == |b| || b[j] > a[0]
    ensures Leftover(a, b) == j
    decreases |a| + |b|
  {
    if |b| == 0 {
    } else if b[|b| - 1] > a[|a| - 1] {
      LeftoverCountsSmallElements(a, b[..|b| - 1], j);
    } else if |a| > 1 {
      LeftoverCountsSmallElements(a[..|a| - 1], b, j);
    }
  }

  /** nums1 empty and nums2 = [1, 2]: the written result is [0, 2], not [1, 2]. */
  lemma EmptyNums1LosesElements()
    ensures Leftover([], [1, 2]) == 2
    ensures MergedAsWritten([0, 0], [], [1, 2]) == [0, 2]
    ensures Merged([], [1, 2]) == [1, 2]
  {
  }

  /**
   * nums1 = [2, _, _] with m = 1 and nums2 = [1, 1]: both 1s tie with or fall
   * below 2, the tail copies one of them, and the result [2, 1, 2] is not
   * even sorted.
   */
  lemma TieLosesElement()
    ensures MergedAsWritten([2, 0, 0], [2], [1, 1]) == [2, 1, 2]
    ensures !Sorted(MergedAsWritten([2, 0, 0], [2], [1, 1]))
    ensures Merged([2], [1, 1]) == [1, 1, 2]
  {
    assert MergedAsWritten([2, 0, 0], [2], [1, 1]) == MergedAsWritten([2, 0, 0], [], [1, 1]) + [2];
    assert [2, 0, 0][..1] == [2];
    var w := MergedAsWritten([2, 0, 0], [2], [1, 1]);
    assert w[0] > w[1];
  }

  // ---------------------------------------------------------------------------
  // The in-place methods
  // ---------------------------------------------------------------------------

  /**
   * nums1 once merge_sort has run to completion from the state ptr1 = i - 1,
   * ptr2 = j - 1, ptr_merged = i + j - 1 with nums1 holding `cur`: the
   * comparison loop, then the single tail step.
   */
  function RunAsWritten(b: seq<int>, i: nat, j: nat, cur: seq<int>): seq<int>
    requires i + j <= |cur| && j <= |b|
    decreases i + j
  {
    if i > 0 && j > 0 then
      if b[j - 1] > cur[i - 1] then RunAsWritten(b, i, j - 1, cur[i + j - 1 := b[j - 1]])
      else RunAsWritten(b, i - 1, j, cur[i + j - 1 := cur[i - 1]])
    else if j > 0 then cur[j - 1 := b[j - 1]]
    else cur
  }

  /** The same run with the tail step repeated while nums2 has elements left. */
  function RunFixed(b: seq<int>, i: nat, j: nat, cur: seq<int>): seq<int>
    requires i + j <= |cur| && j <= |b|
    decreases i + j
  {
    if i > 0 && j > 0 then
      if b[j - 1] > cur[i - 1] then RunFixed(b, i, j - 1, cur[i + j - 1 := b[j - 1]])
      else RunFixed(b, i - 1, j, cur[i + j - 1 := cur[i - 1]])
    else if j > 0 then RunFixed(b, 0, j - 1, cur[j - 1 := b[j - 1]])
    else cur
  }

  /** MergedAsWritten reads nums1 only below slot |a| + |b|. */
  lemma {:induction false} AsWrittenFrame(o1: seq<int>, o2: seq<int>, a: seq<int>, b: seq<int>)
    requires |a| + |b| <= |o1| && |a| + |b| <= |o2|
    requires forall k :: 0 <= k < |a| + |b| ==> o1[k] == o2[k]
    ensures MergedAsWritten(o1, a, b) == MergedAsWritten(o2, a, b)
    decreases |a| + |b|
  {
    if |a| == 0 {
      if |b| > 0 {
        assert o1[..|b| - 1] == o2[..|b| - 1];
      }
    } else if |b| == 0 {
    } else if b[|b| - 1] > a[|a| - 1] {
      AsWrittenFrame(o1, o2, a, b[..|b| - 1]);
    } else {
      AsWrittenFrame(o1, o2, a[..|a| - 1], b);
    }
  }

  /** Writing x at slot p extends the finished prefix below p by one element. */
  lemma WriteExtendsPrefix(r: seq<int>, cur: seq<int>, p: nat, x: int)
    requires p < |cur| && |r| == |cur|
    requires r[p..] == cur[p := x][p..]
    ensures r[..p + 1] == r[..p] + [x]
    ensures r[p + 1..] == cur[p + 1..]
  {
    assert r[p] == r[p..][0];
    assert r[p + 1..] == r[p..][1..];
  }

  /** One step of merge_sort that copies nums2[j - 1] into slot i + j - 1. */
  lemma AsWrittenTakeB(b: seq<int>, i: nat, j: nat, cur: seq<int>)
    requires 0 < i && 0 < j && i + j <= |cur| && j <= |b| && b[j - 1] > cur[i - 1]
    requires var cur' := cur[i + j - 1 := b[j - 1]];
      var r' := RunAsWritten(b, i, j - 1, cur');
      |r'| == |cur| && r'[..i + j - 1] == MergedAsWritten(cur', cur'[..i], b[..j - 1])
      && r'[i + j - 1..] == cur'[i + j - 1..]
    ensures |RunAsWritten(b, i, j, cur)| == |cur|
    ensures RunAsWritten(b, i, j, cur)[..i + j] == MergedAsWritten(cur, cur[..i], b[..j])
    ensures RunAsWritten(b, i, j, cur)[i + j..] == cur[i + j..]
  {
    var p := i + j - 1;
    var cur' := cur[p := b[j - 1]];
    var r := RunAsWritten(b, i, j, cur);
    assert r == RunAsWritten(b, i, j - 1, cur');
    var a, bj := cur[..i], b[..j];
    assert a[|a| - 1] == cur[i - 1] && bj[|bj| - 1] == b[j - 1] && bj[..j - 1] == b[..j - 1];
    assert cur'[..i] == a;
    AsWrittenFrame(cur', cur, a, b[..j - 1]);
    WriteExtendsPrefix(r, cur, p, b[j - 1]);
  }

  /** One step of merge_sort that moves nums1[i - 1] up into slot i + j - 1. */
  lemma AsWrittenTakeA(b: seq<int>, i: nat, j: nat, cur: seq<int>)
    requires 0 < i && 0 < j && i + j <= |cur| && j <= |b| && b[j - 1] <= cur[i - 1]
    requires var cur' := cur[i + j - 1 := cur[i - 1]];
      var r' := RunAsWritten(b, i - 1, j, cur');
      |r'| == |cur| && r'[..i + j - 1] == MergedAsWritten(cur', cur'[..i - 1], b[..j])
      && r'[i + j - 1..] == cur'[i + j - 1..]
    ensures |RunAsWritten(b, i, j, cur)| == |cur|
    ensures RunAsWritten(b, i, j, cur)[..i + j] == MergedAsWritten(cur, cur[..i], b[..j])
    ensures RunAsWritten(b, i, j, cur)[i + j..] == cur[i + j..]
  {
    var p := i + j - 1;
    var cur' := cur[p := cur[i - 1]];
    var r := RunAsWritten(b, i, j, cur);
    assert r == RunAsWritten(b, i - 1, j, cur');
    var a, bj := cur[..i], b[..j];
    assert a[|a| - 1] == cur[i - 1] && bj[|bj| - 1] == b[j - 1] && a[..i - 1] == cur[..i - 1];
    assert cur'[..i - 1] == cur[..i - 1];
    AsWrittenFrame(cur', cur, cur[..i - 1], bj);
    WriteExtendsPrefix(r, cur, p, cur[i - 1]);
  }

  /**
   * Running merge_sort from any state writes MergedAsWritten into the slots
   * below i + j and leaves every slot from i + j on as it was.
   */
  lemma {:induction false} RunAsWrittenComputes(b: seq<int>, i: nat, j: nat, cur: seq<int>)
    requires i + j <= |cur| && j <= |b|
    ensures |RunAsWritten(b, i, j, cur)| == |cur|
    ensures RunAsWritten(b, i, j, cur)[..i + j] == MergedAsWritten(cur, cur[..i], b[..j])
    ensures RunAsWritten(b, i, j, cur)[i + j..] == cur[i + j..]
    decreases i + j
  {
    if i > 0 && j > 0 {
      if b[j - 1] > cur[i - 1] {
        RunAsWrittenComputes(b, i, j - 1, cur[i + j - 1 := b[j - 1]]);
        AsWrittenTakeB(b, i, j, cur);
      } else {
        RunAsWrittenComputes(b, i - 1, j, cur[i + j - 1 := cur[i - 1]]);
        AsWrittenTakeA(b, i, j, cur);
      }
    } else if j > 0 {
      var r := RunAsWritten(b, i, j, cur);
      assert r == cur[j - 1 := b[j - 1]];
      assert r[..j] == cur[..j - 1] + [b[j - 1]];
    } else {
      assert b[..0] == [];
    }
  }

  /**
   * Running the corrected merge from any state writes the intended merge of
   * cur[..i] and b[..j] into the slots below i + j and leaves the rest.
   */
  lemma {:induction false} RunFixedComputes(b: seq<int>, i: nat, j: nat, cur: seq<int>)
    requires i + j <= |cur| && j <= |b|
    ensures |RunFixed(b, i, j, cur)| == |cur|
    ensures RunFixed(b, i, j, cur)[..i + j] == Merged(cur[..i], b[..j])
    ensures RunFixed(b, i, j, cur)[i + j..] == cur[i + j..]
    decreases i + j
  {
    var r := RunFixed(b, i, j, cur);
    if j > 0 {
      var p := i + j - 1;
      var bj := b[..j];
      assert bj[|bj| - 1] == b[j - 1] && bj[..j - 1] == b[..j - 1];
      if i == 0 || b[j - 1] > cur[i - 1] {
        var cur' := cur[p := b[j - 1]];
        assert r == RunFixed(b, i, j - 1, cur');
        RunFixedComputes(b, i, j - 1, cur');
        assert cur'[..i] == cur[..i];
        WriteExtendsPrefix(r, cur, p, b[j - 1]);
      } else {
        var a := cur[..i];
        assert a[|a| - 1] == cur[i - 1] && a[..i - 1] == cur[..i - 1];
        var cur' := cur[p := cur[i - 1]];
        assert r == RunFixed(b, i - 1, j, cur');
        RunFixedComputes(b, i - 1, j, cur');
        assert cur'[..i - 1] == cur[..i - 1];
        WriteExtendsPrefix(r, cur, p, cur[i - 1]);
      }
    } else {
      assert b[..0] == [];
    }
  }

  /**
   * `merge_sort(nums1, m, nums2, n)` as written: three pointers walk nums1's
   * first m entries, nums2's first n entries and the slots 0 .. m+n of nums1
   * from the back; after the loop a single `if` copies at most one remaining
   * nums2 element. nums1 is updated in place and returned; nums2 is only read.
   */
  method MergeSort(nums1: array<int>, m: int, nums2: array<int>, n: int) returns (r: array<int>)
    requires 0 <= m && 0 <= n <= nums2.Length && m + n <= nums1.Length
    requires nums1 != nums2
    modifies nums1
    ensures r == nums1
    ensures nums1[..m + n] == MergedAsWritten(old(nums1[..]), old(nums1[..m]), nums2[..n])
    ensures nums1[m + n..] == old(nums1[m + n..])
  {
    ghost var final := RunAsWritten(nums2[..], m, n, nums1[..]);
    RunAsWrittenComputes(nums2[..], m, n, nums1[..]);
    var ptr1 := m - 1;
    var ptr2 := n - 1;
    var ptrMerged := m + n - 1;
    while ptr1 >= 0 && ptr2 >= 0
      invariant -1 <= ptr1 < m && -1 <= ptr2 < n
      invariant ptrMerged == ptr1 + ptr2 + 1
      invariant RunAsWritten(nums2[..], ptr1 + 1, ptr2 + 1, nums1[..]) == final
    {
      // Every write lands strictly above ptr1, so unread nums1 entries survive.
      if nums2[ptr2] > nums1[ptr1] {
        nums1[ptrMerged] := nums2[ptr2];
        ptr2 := ptr2 - 1;
        ptrMerged := ptrMerged - 1;
      } else {
        nums1[ptrMerged] := nums1[ptr1];
        ptr1 := ptr1 - 1;
        ptrMerged := ptrMerged - 1;
      }
    }
    if ptr2 >= 0 {
      // The loop stopped because nums1 ran out: ptr1 == -1 and ptrMerged == ptr2.
      nums1[ptrMerged] := nums2[ptr2];
      ptr2 := ptr2 - 1;
      ptrMerged := ptrMerged - 1;
    }
    assert nums1[..] == final;
    r := nums1;
  }

  /**
   * The evidently intended merge: the tail step is a loop, so every remaining
   * nums2 element is copied and nums1[0 .. m+n) becomes the full merge.
   */
  method MergeSortFixed(nums1: array<int>, m: int, nums2: array<int>, n: int) returns (r: array<int>)
    requires 0 <= m && 0 <= n <= nums2.Length && m + n <= nums1.Length
    requires nums1 != nums2
    modifies nums1
    ensures r == nums1
    ensures nums1[..m + n] == Merged(old(nums1[..m]), nums2[..n])
    ensures nums1[m + n..] == old(nums1[m + n..])
  {
    ghost var final := RunFixed(nums2[..], m, n, nums1[..]);
    RunFixedComputes(nums2[..], m, n, nums1[..]);
    var ptr1 := m - 1;
    var ptr2 := n - 1;
    var ptrMerged := m + n - 1;
    while ptr1 >= 0 && ptr2 >= 0
      invariant -1 <= ptr1 < m && -1 <= ptr2 < n
      invariant ptrMerged == ptr1 + ptr2 + 1
      invariant RunFixed(nums2[..], ptr1 + 1, ptr2 + 1, nums1[..]) == final
    {
      if nums2[ptr2] > nums1[ptr1] {
        nums1[ptrMerged] := nums2[ptr2];
        ptr2 := ptr2 - 1;
        ptrMerged := ptrMerged - 1;
      } else {
        nums1[ptrMerged] := nums1[ptr1];
        ptr1 := ptr1 - 1;
        ptrMerged := ptrMerged - 1;
      }
    }
    while ptr2 >= 0
      invariant -1 <= ptr1 < m && -1 <= ptr2 < n
      invariant ptr2 >= 0 ==> ptr1 == -1
      invariant ptrMerged == ptr1 + ptr2 + 1
      invariant RunFixed(nums2[..], ptr1 + 1, ptr2 + 1, nums1[..]) == final
    {
      nums1[ptrMerged] := nums2[ptr2];
      ptr2 := ptr2 - 1;
      ptrMerged := ptrMerged - 1;
    }
    assert nums1[..] == final;
    r := nums1;
  }
}
