/**
 * The integer sorts of src/utils/sort.h, in place on an `int` array:
 * insertion_sort and bubble_sort. Both are stated twice: as written, by
 * functions that expose the reads and writes outside the array, and with
 * the bounds corrected, as methods proved to leave the array sorted and a
 * permutation of what it held.
 */
module SortH {

  /** Non-decreasing. */
  ghost predicate Sorted(s: seq<int>) {
    forall k, l :: 0 <= k < l < |s| ==> s[k] <= s[l]
  }

  /** Exchanging two positions keeps the multiset of values. */
  lemma SwapKeeps(s: seq<int>, i: nat, j: nat)
    requires i < |s| && j < |s|
    ensures multiset(s[i := s[j]][j := s[i]]) == multiset(s)
  {
    var t := s[i := s[j]];
    assert multiset(t) == multiset(s) - multiset{s[i]} + multiset{s[j]};
    assert multiset(t[j := s[i]]) == multiset(t) - multiset{t[j]} + multiset{s[i]};
  }

  // ---- insertion_sort ----

  /**
   * The positions the inner loop of insertion_sort reads as written, from
   * `i` down: the condition `i >= 0, array[i] > curr` keeps only its
   * second half, so when every value below is greater than `curr` the loop
   * goes on to read position -1.
   */
  function InnerReadsAsWritten(s: seq<int>, i: int, curr: int): (r: seq<int>)
    requires i < |s|
    ensures |r| >= 1 && forall k :: 0 <= k < |r| ==> r[k] == i - k
    ensures forall k :: 0 <= k < |r| - 1 ==> 0 <= r[k] && s[r[k]] > curr
    ensures r[|r| - 1] < 0 || s[r[|r| - 1]] <= curr
    decreases i + 1
  {
    if i < 0 then [i]
    else if s[i] > curr then [i] + InnerReadsAsWritten(s, i - 1, curr)
    else [i]
  }

  /** As written, a new minimum sends the inner loop below the array: the last position read is -1. */
  lemma {:induction false} NewMinimumReadsBelow(s: seq<int>, i: int, curr: int)
    requires -1 <= i < |s|
    requires forall k :: 0 <= k <= i ==> s[k] > curr
    ensures InnerReadsAsWritten(s, i, curr)[|InnerReadsAsWritten(s, i, curr)| - 1] == -1
    decreases i + 1
  {
    if i >= 0 {
      NewMinimumReadsBelow(s, i - 1, curr);
    }
  }

  /** Sorting [2, 1]: at j = 1 the loop reads positions 0 and then -1. */
  lemma InsertionReadsBelowExample()
    ensures InnerReadsAsWritten([2, 1], 0, 1) == [0, -1]
  {
  }

  /**
   * insertion_sort with `i >= 0` joined to the condition by &&: for each
   * j, the greater values of the sorted prefix shift up by one and
   * array[j] goes into the gap.
   */
  method InsertionSort(a: array<int>)
    modifies a
    ensures Sorted(a[..]) && multiset(a[..]) == multiset(old(a[..]))
  {
    ghost var g := a[..];
    var j := 1;
    while j < a.Length
      invariant a[..] == g && |g| == a.Length
      invariant multiset(g) == multiset(old(a[..]))
      invariant a.Length == 0 || (1 <= j <= a.Length && Sorted(g[..j]))
    {
      g := Insert(a, j, g);
      j := j + 1;
    }
    if a.Length > 0 {
      assert g[..a.Length] == g;
    }
  }

  /** Iteration j of insertion_sort: array[j] placed into the sorted prefix [0, j). */
  method Insert(a: array<int>, j: nat, ghost g: seq<int>) returns (ghost h: seq<int>)
    requires a[..] == g && 1 <= j < a.Length && Sorted(g[..j])
    modifies a
    ensures a[..] == h && |h| == |g| && Sorted(h[..j + 1]) && multiset(h) == multiset(g)
  {
    var curr := a[j];
    var i: int := j - 1;
    h := g;
    while i >= 0 && a[i] > curr
      invariant -1 <= i < j && a[..] == h && |h| == |g|
      invariant forall k :: 0 <= k <= i ==> h[k] == g[k]
      invariant forall k :: i + 1 < k <= j ==> h[k] == g[k - 1]
      invariant forall k :: j < k < |h| ==> h[k] == g[k]
      invariant forall k :: i < k < j ==> curr < g[k]
    {
      Put(a, i + 1, a[i]);
      h := h[i + 1 := h[i]];
      i := i - 1;
    }
    Put(a, i + 1, curr);
    Gap(g, h, i, j);
    h := h[i + 1 := curr];
  }

  /** The inner loop's state at exit, with array[j] stored into the gap at i + 1, is the insertion. */
  lemma Gap(g: seq<int>, h: seq<int>, i: int, j: nat)
    requires -1 <= i < j < |g| && |h| == |g| && Sorted(g[..j])
    requires forall k :: 0 <= k <= i ==> h[k] == g[k]
    requires forall k :: i + 1 < k <= j ==> h[k] == g[k - 1]
    requires forall k :: j < k < |h| ==> h[k] == g[k]
    requires forall k :: i < k < j ==> g[j] < g[k]
    requires i < 0 || g[i] <= g[j]
    ensures Sorted(h[i + 1 := g[j]][..j + 1]) && multiset(h[i + 1 := g[j]]) == multiset(g)
  {
    var r := h[i + 1 := g[j]];
    assert r == g[..i + 1] + [g[j]] + g[i + 1..j] + g[j + 1..];
    InsertKeeps(g, i, j);
    InsertSorts(g, i, j);
    assert r[..j + 1] == g[..i + 1] + [g[j]] + g[i + 1..j];
  }

  /** Taking position j out and putting it back after position i keeps the multiset. */
  lemma InsertKeeps(g: seq<int>, i: int, j: nat)
    requires -1 <= i < j < |g|
    ensures multiset(g[..i + 1] + [g[j]] + g[i + 1..j] + g[j + 1..]) == multiset(g)
  {
    assert g == g[..i + 1] + g[i + 1..j] + [g[j]] + g[j + 1..];
  }

  /**
   * The value from position j, placed after the last value of the sorted
   * prefix that is not greater, leaves [0, j] sorted.
   */
  lemma InsertSorts(g: seq<int>, i: int, j: nat)
    requires -1 <= i < j < |g| && Sorted(g[..j])
    requires i < 0 || g[i] <= g[j]
    requires forall k :: i < k < j ==> g[j] < g[k]
    ensures Sorted(g[..i + 1] + [g[j]] + g[i + 1..j])
  {
    var r := g[..i + 1] + [g[j]] + g[i + 1..j];
    forall k, l | 0 <= k < l < |r|
      ensures r[k] <= r[l]
    {
      assert g[..j][k] == g[k];
      if l <= i {
        assert g[..j][l] == g[l];
      } else if k <= i && l == i + 1 {
        assert g[..j][i] == g[i];
      } else if k <= i {
        assert g[..j][l - 1] == g[l - 1];
      } else if k > i + 1 {
        assert g[..j][k - 1] == g[k - 1] && g[..j][l - 1] == g[l - 1];
      }
    }
  }

  /** One store. */
  method Put(a: array<int>, i: nat, x: int)
    requires i < a.Length
    modifies a
    ensures a[..] == old(a[..])[i := x]
  {
    a[i] := x;
  }

  // ---- bubble_sort ----

  /**
   * One pass of bubble_sort over memory `m` from position `i`: each pair
   * (i, i + 1) with i < last is compared and swapped when out of order.
   */
  function PassFrom(m: seq<int>, i: nat, last: nat): (r: seq<int>)
    requires last < |m|
    ensures |r| == |m| && r[last + 1..] == m[last + 1..]
    decreases last - i
  {
    if i >= last then m
    else if m[i] > m[i + 1] then PassFrom(m[i := m[i + 1]][i + 1 := m[i]], i + 1, last)
    else PassFrom(m, i + 1, last)
  }

  /**
   * bubble_sort as written, on the array followed by the memory cell
   * after it: the first pass compares array[size - 1] with array[size]
   * and may exchange them.
   */
  function BubbleAsWritten(m: seq<int>, last: nat): (r: seq<int>)
    requires last < |m|
    ensures |r| == |m| && r[last + 1..] == m[last + 1..]
    decreases last
  {
    if last == 0 then m else BubbleAsWritten(PassFrom(m, 0, last), last - 1)
  }

  /**
   * A pass from i over memory whose positions after `last` are settled and
   * whose largest value of [0, i] is at i leaves the positions from `last`
   * on settled, and moves values only among positions.
   */
  lemma {:induction false} PassFromSettles(m: seq<int>, i: nat, last: nat)
    requires i <= last < |m| && Settled(m, last + 1)
    requires forall k :: 0 <= k < i ==> m[k] <= m[i]
    ensures Settled(PassFrom(m, i, last), last)
    ensures multiset(PassFrom(m, i, last)) == multiset(m)
    decreases last - i
  {
    if i < last {
      PassStep(m, i, last + 1);
      var r := if m[i] > m[i + 1] then m[i := m[i + 1]][i + 1 := m[i]] else m;
      if m[i] > m[i + 1] {
        SwapKeeps(m, i, i + 1);
      }
      assert PassFrom(m, i, last) == PassFrom(r, i + 1, last);
      PassFromSettles(r, i + 1, last);
    } else {
      SettleOne(m, last + 1);
    }
  }

  /**
   * bubble_sort as written sorts the memory [0, last] it walks, that is the
   * array together with the cell after it, by moving values among them.
   */
  lemma {:induction false} BubbleAsWrittenSorts(m: seq<int>, last: nat)
    requires last < |m| && Settled(m, last + 1)
    ensures Sorted(BubbleAsWritten(m, last))
    ensures multiset(BubbleAsWritten(m, last)) == multiset(m)
    decreases last
  {
    if last > 0 {
      PassFromSettles(m, 0, last);
      BubbleAsWrittenSorts(PassFrom(m, 0, last), last - 1);
    }
  }

  /**
   * On an array `s` followed by the cell `cell`, bubble_sort as written
   * leaves the n + 1 values sorted, so the array keeps the smallest n of
   * them: a cell smaller than the array's largest value is pulled in.
   */
  lemma SortsWithCell(s: seq<int>, cell: int)
    ensures var r := BubbleAsWritten(s + [cell], |s|);
      Sorted(r) && multiset(r) == multiset(s) + multiset{cell}
  {
    BubbleAsWrittenSorts(s + [cell], |s|);
  }

  /** Sorting [3] when the cell after it holds 1: the array ends as [1], and 3 has moved outside it. */
  lemma BubbleLosesValue()
    ensures BubbleAsWritten([3, 1], 1) == [1, 3]
  {
  }

  /**
   * bubble_sort with the inner loop bounded by i + 1 < last_sorted_index:
   * each pass carries the largest value of [0, last) to last - 1, which is
   * then left alone.
   */
  method BubbleSort(a: array<int>)
    modifies a
    ensures Sorted(a[..]) && multiset(a[..]) == multiset(old(a[..]))
  {
    ghost var g := a[..];
    var last: nat := a.Length;
    while last > 0
      invariant last <= a.Length && a[..] == g && |g| == a.Length
      invariant multiset(g) == multiset(old(a[..]))
      invariant Settled(g, last)
    {
      g := Pass(a, last, g);
      last := last - 1;
    }
  }

  /** The positions from `last` on hold the largest values, in order. */
  ghost predicate Settled(g: seq<int>, last: nat)
    requires last <= |g|
  {
    && (forall k, l :: last <= k < l < |g| ==> g[k] <= g[l])
    && (forall k, l :: 0 <= k < last <= l < |g| ==> g[k] <= g[l])
  }

  /** One corrected pass: the largest value of [0, last) ends at last - 1. */
  method Pass(a: array<int>, last: nat, ghost g: seq<int>) returns (ghost h: seq<int>)
    requires a[..] == g && 0 < last <= a.Length && Settled(g, last)
    modifies a
    ensures a[..] == h && |h| == |g| && multiset(h) == multiset(g) && Settled(h, last - 1)
  {
    h := g;
    var i := 0;
    while i + 1 < last
      invariant i < last && a[..] == h && |h| == |g|
      invariant multiset(h) == multiset(g) && Settled(h, last)
      invariant forall k :: 0 <= k < i ==> h[k] <= h[i]
    {
      h := Compare(a, i, last, h);
      i := i + 1;
    }
    SettleOne(h, last);
  }

  /** A prefix whose largest value is at its end leaves one more position settled. */
  lemma SettleOne(h: seq<int>, last: nat)
    requires 0 < last <= |h| && Settled(h, last)
    requires forall k :: 0 <= k < last - 1 ==> h[k] <= h[last - 1]
    ensures Settled(h, last - 1)
  {
  }

  /**
   * One comparison of the pass at i: array[i] and array[i + 1] swapped when
   * out of order, which keeps the suffix settled and leaves at i + 1 the
   * largest value of [0, i + 1].
   */
  method Compare(a: array<int>, i: nat, last: nat, ghost h: seq<int>) returns (ghost r: seq<int>)
    requires a[..] == h && i + 1 < last <= |h| && Settled(h, last)
    requires forall k :: 0 <= k < i ==> h[k] <= h[i]
    modifies a
    ensures a[..] == r && |r| == |h| && multiset(r) == multiset(h) && Settled(r, last)
    ensures forall k :: 0 <= k < i + 1 ==> r[k] <= r[i + 1]
  {
    PassStep(h, i, last);
    r := h;
    if a[i] > a[i + 1] {
      SwapKeeps(h, i, i + 1);
      SwapNext(a, i);
      r := h[i := h[i + 1]][i + 1 := h[i]];
    }
  }

  /** The comparison at i on values: the suffix stays settled and [0, i + 1] has its largest value last. */
  lemma PassStep(h: seq<int>, i: nat, last: nat)
    requires i + 1 < last <= |h| && Settled(h, last)
    requires forall k :: 0 <= k < i ==> h[k] <= h[i]
    ensures var r := if h[i] > h[i + 1] then h[i := h[i + 1]][i + 1 := h[i]] else h;
      Settled(r, last) && forall k :: 0 <= k < i + 1 ==> r[k] <= r[i + 1]
  {
  }

  /** swap(array[i], array[i + 1]). */
  method SwapNext(a: array<int>, i: nat)
    requires i + 1 < a.Length
    modifies a
    ensures a[..] == old(a[..])[i := old(a[i + 1])][i + 1 := old(a[i])]
  {
    a[i], a[i + 1] := a[i + 1], a[i];
  }

  /** insertion_sort puts [3, 1, 2] in order. */
  method InsertionScenario() returns (sorted: seq<int>)
    ensures sorted == [1, 2, 3]
  {
    var a := new int[] [3, 1, 2];
    assert a[..] == [3, 1, 2];
    InsertionSort(a);
    sorted := a[..];
    SortedOf312(sorted);
  }

  /** bubble_sort, with its bounds corrected, puts [3, 1, 2] in order. */
  method BubbleScenario() returns (sorted: seq<int>)
    ensures sorted == [1, 2, 3]
  {
    var a := new int[] [3, 1, 2];
    assert a[..] == [3, 1, 2];
    BubbleSort(a);
    sorted := a[..];
    SortedOf312(sorted);
  }

  /** The only sorted arrangement of 3, 1 and 2. */
  lemma SortedOf312(s: seq<int>)
    requires Sorted(s) && multiset(s) == multiset([3, 1, 2])
    ensures s == [1, 2, 3]
  {
    assert |s| == 3 by {
      assert |multiset(s)| == |s|;
    }
    assert forall x :: x in s ==> x == 1 || x == 2 || x == 3 by {
      forall x | x in s
        ensures x == 1 || x == 2 || x == 3
      {
        assert x in multiset(s);
      }
    }
    assert s[0] in s && s[2] in s;
    assert s[0] <= 1 by {
      assert 1 in multiset(s);
      var k :| 0 <= k < 3 && s[k] == 1;
    }
    assert s[2] >= 3 by {
      assert 3 in multiset(s);
      var k :| 0 <= k < 3 && s[k] == 3;
    }
    assert s == [1, s[1], 3];
    assert multiset([1, s[1], 3])[2] == 1;
  }
}
