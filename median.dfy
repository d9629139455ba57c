/** The delay estimate: numpy's median over integer microseconds.
    The middle element of the sorted window, or the mean of the two middle elements. */
module Median {

  /** Each element is at least the one before it. */
  predicate Sorted(s: seq<int>)
  {
    forall i :: 0 < i < |s| ==> s[i - 1] <= s[i]
  }

  function Insert(x: int, s: seq<int>): (r: seq<int>)
    requires Sorted(s)
    ensures Sorted(r)
    ensures multiset(r) == multiset(s) + multiset{x}
    ensures |r| == |s| + 1 && r[0] == if s == [] || x <= s[0] then x else s[0]
    decreases |s|
  {
    if s == [] then [x]
    else if x <= s[0] then [x] + s
    else
      assert s == [s[0]] + s[1..];
      [s[0]] + Insert(x, s[1..])
  }

  /** Insertion sort: a sorted permutation of s. */
  function Sort(s: seq<int>): (r: seq<int>)
    ensures Sorted(r)
    ensures multiset(r) == multiset(s)
    ensures |r| == |s|
    decreases |s|
  {
    if s == [] then []
    else
      assert s == [s[0]] + s[1..];
      var r := Insert(s[0], Sort(s[1..]));
      assert |r| == |multiset(r)|;
      r
  }

  /** np.median over a non-empty window. */
  function MedianOf(s: seq<int>): (r: real)
    requires |s| > 0
  {
    var t := Sort(s);
    var n := |t|;
    if n % 2 == 1 then t[n / 2] as real else (t[n / 2 - 1] + t[n / 2]) as real / 2.0
  }

  lemma SortedElementIn(s: seq<int>, k: nat)
    requires k < |s|
    ensures exists i :: 0 <= i < |s| && s[i] == Sort(s)[k]
  {
    var t := Sort(s);
    assert t[k] in multiset(t);
    assert t[k] in s;
  }

  /** The median lies between two elements of the window, and is one of them when the count is odd. */
  lemma {:induction false} MedianWithinWindow(s: seq<int>)
    requires |s| > 0
    ensures exists i :: 0 <= i < |s| && s[i] as real <= MedianOf(s)
    ensures exists j :: 0 <= j < |s| && MedianOf(s) <= s[j] as real
    ensures |s| % 2 == 1 ==> exists k :: 0 <= k < |s| && s[k] as real == MedianOf(s)
  {
    var t := Sort(s);
    var n := |t|;
    if n % 2 == 1 {
      SortedElementIn(s, n / 2);
    } else {
      SortedElementIn(s, n / 2 - 1);
      SortedElementIn(s, n / 2);
      assert t[n / 2 - 1] <= t[n / 2];
    }
  }

  /** x lies on the given side of m: at or below it, or at or above it. */
  predicate OnSide(x: int, m: real, below: bool)
  {
    if below then x as real <= m else x as real >= m
  }

  /** How many elements of s lie on the given side of m. */
  function CountSide(s: seq<int>, m: real, below: bool): (r: nat)
    ensures r <= |s|
    decreases |s|
  {
    if s == [] then 0 else (if OnSide(s[0], m, below) then 1 else 0) + CountSide(s[1..], m, below)
  }

  lemma {:induction false} CountSideAppend(u: seq<int>, v: seq<int>, m: real, below: bool)
    ensures CountSide(u + v, m, below) == CountSide(u, m, below) + CountSide(v, m, below)
    decreases |u|
  {
    if u == [] {
      assert u + v == v;
    } else {
      assert (u + v)[1..] == u[1..] + v;
      CountSideAppend(u[1..], v, m, below);
    }
  }

  /** Removing the element at j from b removes one occurrence of it from the multiset ... */
  lemma RemoveAtMultiset(b: seq<int>, j: nat)
    requires j < |b|
    ensures multiset(b[..j] + b[j + 1..]) == multiset(b) - multiset{b[j]}
  {
    assert b == b[..j] + [b[j]] + b[j + 1..];
  }

  /** ... and its term from the count. */
  lemma RemoveAtCount(b: seq<int>, j: nat, m: real, below: bool)
    requires j < |b|
    ensures CountSide(b, m, below) == (if OnSide(b[j], m, below) then 1 else 0) + CountSide(b[..j] + b[j + 1..], m, below)
  {
    var x := b[j];
    assert b == (b[..j] + [x]) + b[j + 1..];
    CountSideAppend(b[..j] + [x], b[j + 1..], m, below);
    CountSideAppend(b[..j], [x], m, below);
    CountSideAppend(b[..j], b[j + 1..], m, below);
    assert [x][1..] == [];
  }

  /** The count depends only on the multiset of elements. */
  lemma {:induction false} CountSidePermutation(a: seq<int>, b: seq<int>, m: real, below: bool)
    requires multiset(a) == multiset(b)
    ensures CountSide(a, m, below) == CountSide(b, m, below)
    decreases |a|
  {
    if a == [] {
      assert |b| == |multiset(b)| == 0;
    } else {
      var x := a[0];
      assert x in multiset(b);
      var j :| 0 <= j < |b| && b[j] == x;
      RemoveAtMultiset(b, j);
      assert a == [x] + a[1..];
      assert multiset(a[1..]) == multiset(a) - multiset{x};
      CountSidePermutation(a[1..], b[..j] + b[j + 1..], m, below);
      RemoveAtCount(b, j, m, below);
    }
  }

  /** Elements at indices lo .. hi-1 on the side of m make at least hi - lo of the count. */
  lemma {:induction false} CountSideRange(t: seq<int>, m: real, below: bool, lo: nat, hi: nat)
    requires lo <= hi <= |t|
    requires forall k :: lo <= k < hi ==> OnSide(t[k], m, below)
    ensures CountSide(t, m, below) >= hi - lo
    decreases |t|
  {
    if lo < hi {
      if lo == 0 {
        CountSideRange(t[1..], m, below, 0, hi - 1);
      } else {
        CountSideRange(t[1..], m, below, lo - 1, hi - 1);
      }
    }
  }

  lemma {:induction false} SortedMonotone(t: seq<int>, i: nat, j: nat)
    requires Sorted(t) && i <= j < |t|
    ensures t[i] <= t[j]
    decreases j - i
  {
    if i < j {
      SortedMonotone(t, i, j - 1);
    }
  }

  /** The defining property of the median: at least half of the window lies at or below it,
      and at least half at or above it. */
  lemma {:induction false} MedianSplitsWindow(s: seq<int>)
    requires |s| > 0
    ensures 2 * CountSide(s, MedianOf(s), true) >= |s|
    ensures 2 * CountSide(s, MedianOf(s), false) >= |s|
  {
    var t := Sort(s);
    var n := |t|;
    var m := MedianOf(s);
    var h := n / 2;
    var lo, hi := t[if n % 2 == 1 then h else h - 1], t[h];
    assert lo as real <= m <= hi as real;
    forall k | 0 <= k < n - h
      ensures OnSide(t[k], m, true)
    {
      SortedMonotone(t, k, if n % 2 == 1 then h else h - 1);
    }
    forall k | h <= k < n
      ensures OnSide(t[k], m, false)
    {
      SortedMonotone(t, h, k);
    }
    CountSideRange(t, m, true, 0, n - h);
    CountSideRange(t, m, false, h, n);
    CountSidePermutation(t, s, m, true);
    CountSidePermutation(t, s, m, false);
  }

  /** A window of positive delays has a positive median. */
  lemma MedianPositive(s: seq<int>)
    requires |s| > 0
    requires forall k :: 0 <= k < |s| ==> s[k] > 0
    ensures MedianOf(s) > 0.0
  {
    MedianWithinWindow(s);
  }
}
