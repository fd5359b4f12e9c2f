/** The quicksort of quick-sort.c.  partition keeps the pivot in a variable and moves a hole
    through the array; its elements are tracked by filling the hole with the pivot. */
module QuickSort {

  predicate Sorted(s: seq<int>) {
    forall i, j :: 0 <= i < j < |s| ==> s[i] <= s[j]
  }

  ghost predicate Permutation(s: seq<int>, t: seq<int>) {
    multiset(s) == multiset(t)
  }

  /** t agrees with s outside p..q, and has the same elements inside. */
  ghost predicate RearrangedWithin(s: seq<int>, t: seq<int>, p: int, q: int) {
    && |s| == |t|
    && 0 <= p <= q + 1 <= |s|
    && (forall k :: 0 <= k < p || q < k < |s| ==> t[k] == s[k])
    && Permutation(s[p..q + 1], t[p..q + 1])
  }

  function Exchanged(s: seq<int>, i: int, j: int): (t: seq<int>)
    requires 0 <= i < |s| && 0 <= j < |s|
    ensures |t| == |s|
  {
    s[i := s[j]][j := s[i]]
  }

  /** Exchanging two positions of a range permutes the range. */
  lemma SwapRearranges(s: seq<int>, i: int, j: int, p: int, q: int)
    requires 0 <= p <= i <= q < |s| && p <= j <= q
    ensures RearrangedWithin(s, Exchanged(s, i, j), p, q)
  {
    var t := Exchanged(s, i, j);
    var a, b := s[p..q + 1], t[p..q + 1];
    SwapPermutes(a, b, i - p, j - p);
    hide Permutation;
  }

  lemma SwapPermutes(a: seq<int>, b: seq<int>, i: int, j: int)
    requires 0 <= i < |a| && 0 <= j < |a| && |a| == |b|
    requires forall k :: 0 <= k < |a| ==> b[k] == if k == j then a[i] else if k == i then a[j] else a[k]
    ensures Permutation(a, b)
  {
    assert b == a[i := a[j]][j := a[i]];
  }

  lemma RearrangedRefl(s: seq<int>, p: int, q: int)
    requires 0 <= p <= q + 1 <= |s|
    ensures RearrangedWithin(s, s, p, q)
  {
  }

  lemma RearrangedOutside(s: seq<int>, t: seq<int>, p: int, q: int)
    requires RearrangedWithin(s, t, p, q)
    ensures |s| == |t| && forall k :: 0 <= k < p || q < k < |s| ==> t[k] == s[k]
  {
  }

  lemma RearrangedTransitive(s: seq<int>, t: seq<int>, u: seq<int>, p: int, q: int)
    requires RearrangedWithin(s, t, p, q) && RearrangedWithin(t, u, p, q)
    ensures RearrangedWithin(s, u, p, q)
  {
  }

  /** A rearrangement of a smaller range is one of a larger range. */
  lemma RearrangedWiden(s: seq<int>, t: seq<int>, p: int, q: int, p': int, q': int)
    requires RearrangedWithin(s, t, p', q')
    requires 0 <= p <= p' && q' <= q < |s|
    ensures RearrangedWithin(s, t, p, q)
  {
    hide Permutation;
    ThreeSlices(s, p, p', q' + 1, q + 1);
    ThreeSlices(t, p, p', q' + 1, q + 1);
    assert s[p..p'] == t[p..p'];
    assert s[q' + 1..q + 1] == t[q' + 1..q + 1];
    PermutationBetween(s[p..p'], s[p'..q' + 1], t[p'..q' + 1], s[q' + 1..q + 1]);
  }

  lemma ThreeSlices(s: seq<int>, i: int, j: int, k: int, n: int)
    requires 0 <= i <= j <= k <= n <= |s|
    ensures s[i..n] == s[i..j] + s[j..k] + s[k..n]
  {
  }

  lemma PermutationBetween(a: seq<int>, s: seq<int>, t: seq<int>, b: seq<int>)
    requires Permutation(s, t)
    ensures Permutation(a + s + b, a + t + b)
  {
  }

  /** While the pivot is held out of position i, moving the element at j there is an exchange of the
      array with the pivot put back. */
  lemma HoleMoves(orig: seq<int>, a: seq<int>, filled: seq<int>, pivot: int, i: int, j: int, p: int, q: int)
    requires 0 <= p <= i <= q < |a| && p <= j <= q
    requires filled == a[i := pivot] && RearrangedWithin(orig, filled, p, q)
    ensures Exchanged(filled, i, j) == a[i := a[j]][j := pivot]
    ensures RearrangedWithin(orig, Exchanged(filled, i, j), p, q)
  {
    hide RearrangedWithin;
    SwapRearranges(filled, i, j, p, q);
    RearrangedTransitive(orig, filled, Exchanged(filled, i, j), p, q);
  }

  /** A bound on all elements of a range survives a rearrangement of the range. */
  lemma RearrangedBounds(s: seq<int>, t: seq<int>, p: int, q: int, bound: int)
    requires RearrangedWithin(s, t, p, q)
    ensures (forall k :: p <= k <= q ==> s[k] <= bound) ==> forall k :: p <= k <= q ==> t[k] <= bound
    ensures (forall k :: p <= k <= q ==> s[k] > bound) ==> forall k :: p <= k <= q ==> t[k] > bound
  {
    forall k | p <= k <= q
      ensures exists m :: p <= m <= q && s[m] == t[k]
    {
      assert t[k] == t[p..q + 1][k - p];
      assert t[k] in multiset(t[p..q + 1]);
      assert t[k] in multiset(s[p..q + 1]);
      var m :| 0 <= m < |s[p..q + 1]| && s[p..q + 1][m] == t[k];
      assert s[p + m] == t[k];
    }
  }

  method Partition(a: array<int>, p: int, q: int) returns (m: int)
    requires 0 <= p < q < a.Length
    modifies a
    ensures p <= m <= q
    ensures a[m] == old(a[p])
    ensures forall k :: p <= k < m ==> a[k] <= a[m]
    ensures forall k :: m < k <= q ==> a[k] > a[m]
    ensures RearrangedWithin(old(a[..]), a[..], p, q)
  {
    hide RearrangedWithin, Exchanged;
    RearrangedRefl(a[..], p, q);
    var pivot := a[p];
    var i, j := p, q;
    ghost var filled := a[..];   // the array with the pivot put into the hole, which is at i
    while i < j
      invariant p <= i <= j <= q
      invariant |filled| == a.Length && filled == a[..][i := pivot]
      invariant RearrangedWithin(old(a[..]), filled, p, q)
      invariant forall k :: p <= k < i ==> a[k] <= pivot
      invariant forall k :: j < k <= q ==> a[k] > pivot
    {
      while i < j && a[j] > pivot
        invariant i <= j <= q
        invariant forall k :: j < k <= q ==> a[k] > pivot
        decreases j
      {
        j := j - 1;
      }
      HoleMoves(old(a[..]), a[..], filled, pivot, i, j, p, q);
      filled := Exchanged(filled, i, j);
      a[i] := a[j];   // the hole moves to j
      while i < j && a[i] <= pivot
        invariant p <= i <= j
        invariant forall k :: p <= k < i ==> a[k] <= pivot
        decreases j - i
      {
        i := i + 1;
      }
      HoleMoves(old(a[..]), a[..], filled, pivot, j, i, p, q);
      filled := Exchanged(filled, j, i);
      a[j] := a[i];   // the hole moves back to i
    }
    a[i] := pivot;
    m := i;
    assert a[..] == filled;
  }

  /** What one call of Sort establishes for the range p..q, whatever its length. */
  ghost predicate SortedWithin(s: seq<int>, t: seq<int>, p: int, q: int)
    requires 0 <= p <= q + 1 <= |s|
  {
    RearrangedWithin(s, t, p, q) && Sorted(t[p..q + 1])
  }

  /** Sorting both sides of a partitioned pivot sorts the range. */
  lemma SortParts(s: seq<int>, t: seq<int>, u: seq<int>, p: int, m: int, q: int)
    requires 0 <= p <= m <= q < |s|
    requires forall k :: p <= k < m ==> s[k] <= s[m]
    requires forall k :: m < k <= q ==> s[k] > s[m]
    requires SortedWithin(s, t, p, m - 1) && |t| == |s| && SortedWithin(t, u, m + 1, q)
    ensures SortedWithin(s, u, p, q)
  {
    hide RearrangedWithin, Sorted;
    RearrangedOutside(s, t, p, m - 1);
    RearrangedOutside(t, u, m + 1, q);
    RearrangedBounds(s, t, p, m - 1, s[m]);
    RearrangedBounds(t, u, m + 1, q, s[m]);
    RearrangedWiden(s, t, p, q, p, m - 1);
    RearrangedWiden(t, u, p, q, m + 1, q);
    RearrangedTransitive(s, t, u, p, q);
    assert Sorted(t[p..m]) && Sorted(u[m + 1..q + 1]);
    SortedJoin(t, u, p, m, q);
  }

  lemma SortedJoin(t: seq<int>, u: seq<int>, p: int, m: int, q: int)
    requires 0 <= p <= m <= q < |t| == |u|
    requires Sorted(t[p..m]) && Sorted(u[m + 1..q + 1])
    requires forall k :: p <= k < m ==> u[k] == t[k]
    requires forall k :: p <= k < m ==> u[k] <= u[m]
    requires forall k :: m < k <= q ==> u[k] > u[m]
    ensures Sorted(u[p..q + 1])
  {
    var v := u[p..q + 1];
    forall i, j | 0 <= i < j < |v|
      ensures v[i] <= v[j]
    {
      if p + j < m {
        assert t[p..m][i] <= t[p..m][j];
      } else if m < p + i {
        assert u[m + 1..q + 1][p + i - m - 1] <= u[m + 1..q + 1][p + j - m - 1];
      }
    }
  }

  method Sort(a: array<int>, p: int, q: int)
    requires p >= q || (0 <= p && q < a.Length)
    modifies a
    ensures p >= q ==> a[..] == old(a[..])
    ensures p < q ==> SortedWithin(old(a[..]), a[..], p, q)
    decreases q - p
  {
    if p >= q {
      return;
    }
    var m := Partition(a, p, q);
    ghost var s := a[..];
    Sort(a, p, m - 1);
    ghost var t := a[..];
    Sort(a, m + 1, q);
    SortParts(s, t, a[..], p, m, q);
    RearrangedTransitive(old(a[..]), s, a[..], p, q);
  }

  /** What Sort promises says: the range is ascending, it holds the same elements as often as before, and
      nothing else changed. */
  lemma SortedWithinMeans(s: seq<int>, t: seq<int>, p: int, q: int)
    requires 0 <= p <= q < |s| && SortedWithin(s, t, p, q)
    ensures |t| == |s|
    ensures forall i, j :: p <= i < j <= q ==> t[i] <= t[j]
    ensures multiset(t[p..q + 1]) == multiset(s[p..q + 1])
    ensures forall k :: 0 <= k < |s| && !(p <= k <= q) ==> t[k] == s[k]
  {
    var v := t[p..q + 1];
    assert forall k :: p <= k <= q ==> t[k] == v[k - p];
  }

  lemma LeastFirst(s: seq<int>, t: seq<int>)
    requires Sorted(s) && Permutation(s, t) && s != [] && t != []
    ensures s[0] <= t[0]
  {
    assert t[0] in multiset(t);
    assert t[0] in multiset(s);
    assert t[0] in s;
  }

  /** An ascending arrangement is unique, so sorting determines the range. */
  lemma {:induction false} SortedUnique(s: seq<int>, t: seq<int>)
    requires Sorted(s) && Sorted(t) && Permutation(s, t)
    ensures s == t
  {
    assert |s| == |multiset(s)| == |multiset(t)| == |t|;
    if s != [] {
      LeastFirst(s, t);
      LeastFirst(t, s);
      assert s == [s[0]] + s[1..] && t == [t[0]] + t[1..];
      assert multiset(s) == multiset{s[0]} + multiset(s[1..]);
      assert multiset(t) == multiset{t[0]} + multiset(t[1..]);
      assert multiset(s[1..]) == multiset(s) - multiset{s[0]};
      assert multiset(t[1..]) == multiset(t) - multiset{t[0]};
      SortedTail(s);
      SortedTail(t);
      hide Sorted;
      SortedUnique(s[1..], t[1..]);
    }
  }

  lemma SortedTail(s: seq<int>)
    requires Sorted(s) && s != []
    ensures Sorted(s[1..])
  {
  }

  /** The test of quick-sort.c: sorting an array that holds 0..n-1 in any order puts each number at
      its own index. */
  lemma SortedNumbers(s: seq<int>)
    requires Sorted(s) && Permutation(s, seq(|s|, i => i))
    ensures forall i :: 0 <= i < |s| ==> s[i] == i
  {
    SortedUnique(s, seq(|s|, i => i));
  }
}
