/*
 * A model of `bubblesort(int *array, int dimension)`: despite its name, a selection
 * sort into descending order. Each round scans the first `dimension` cells for the
 * lowest index holding the largest value, copies that value into a scratch buffer
 * and overwrites the chosen cell with 0 to mark it consumed; at the end the scratch
 * buffer is copied back over the first `dimension` cells.
 *
 * The method `Bubblesort` keeps the code's shape and is proved against the
 * specification functions `ScanUpTo`, `Working`, `Picked` and `SortResult`; the
 * lemmas below state what the result is, when it is sorted and a permutation, and
 * how the 0 marker goes wrong on negative inputs.
 */
module Bubblesort {

  // ---------------------------------------------------------------------------
  // The inner scan
  // ---------------------------------------------------------------------------

  /** The index the inner scan holds after looking at s[0..j): it starts at 0 and
      moves to a later index only when that index holds a strictly larger value. */
  function ScanUpTo(s: seq<int>, j: nat): (m: nat)
    requires 0 < |s| && j <= |s|
    ensures m < |s|
    ensures 0 < j ==> m < j
  {
    if j == 0 then 0
    else
      var m := ScanUpTo(s, j - 1);
      if s[j - 1] > s[m] then j - 1 else m
  }

  /** m is the lowest index of s[..n] holding the largest value of s[..n]. */
  ghost predicate IsFirstMax(s: seq<int>, n: nat, m: nat)
    requires n <= |s|
  {
    && m < n
    && (forall k :: 0 <= k < n ==> s[k] <= s[m])
    && (forall k :: 0 <= k < m ==> s[k] < s[m])
  }

  /** A complete scan of a non-empty prefix ends on its first maximum. */
  lemma {:induction false} ScanFindsFirstMax(s: seq<int>, n: nat)
    requires 0 < n <= |s|
    ensures IsFirstMax(s, n, ScanUpTo(s, n))
  {
    if n > 1 {
      ScanFindsFirstMax(s, n - 1);
    }
  }

  /** The first maximum is the only index the scan can end on, and the scan
      ends on it: the tie-break keeps the earliest of equal maxima. */
  lemma ScanIsFirstMax(s: seq<int>, n: nat, m: nat)
    requires 0 < n <= |s|
    ensures IsFirstMax(s, n, m) <==> m == ScanUpTo(s, n)
  {
    ScanFindsFirstMax(s, n);
  }

  // ---------------------------------------------------------------------------
  // The rounds of the outer loop and the final result
  // ---------------------------------------------------------------------------

  /** The caller's array after k rounds of the outer loop: each round overwrites the
      cell the scan chose with the marker 0. Cells from n on are never changed. */
  function Working(s: seq<int>, n: nat, k: nat): (w: seq<int>)
    requires n <= |s| && k <= n
    ensures |w| == |s|
    ensures w[n..] == s[n..]
  {
    if k == 0 then s
    else
      var w := Working(s, n, k - 1);
      w[ScanUpTo(w, n) := 0]
  }

  /** The first k cells of the scratch buffer after k rounds: round i stores the
      value the scan chose. */
  function Picked(s: seq<int>, n: nat, k: nat): (p: seq<int>)
    requires n <= |s| && k <= n
    ensures |p| == k
  {
    if k == 0 then []
    else
      var w := Working(s, n, k - 1);
      Picked(s, n, k - 1) + [w[ScanUpTo(w, n)]]
  }

  /** Round k + 1 is round k followed by one more scan and pick. */
  lemma NextRound(s: seq<int>, n: nat, k: nat)
    requires n <= |s| && k < n
    ensures Working(s, n, k + 1) == Working(s, n, k)[ScanUpTo(Working(s, n, k), n) := 0]
    ensures Picked(s, n, k + 1) == Picked(s, n, k) + [Working(s, n, k)[ScanUpTo(Working(s, n, k), n)]]
  {
  }

  /** Every cell of the working prefix holds its original value or the marker 0. */
  lemma {:induction false} WorkingValues(s: seq<int>, n: nat, k: nat)
    requires n <= |s| && k <= n
    ensures forall j :: 0 <= j < n ==> Working(s, n, k)[j] in {s[j], 0}
  {
    if k > 0 {
      WorkingValues(s, n, k - 1);
    }
  }

  /** Every value in the scratch buffer is a value of the original prefix or 0. */
  lemma {:induction false} PickedValues(s: seq<int>, n: nat, k: nat)
    requires n <= |s| && k <= n
    ensures forall i :: 0 <= i < k ==> Picked(s, n, k)[i] in multiset(s[..n]) + multiset{0}
  {
    if k > 0 {
      PickedValues(s, n, k - 1);
      var w := Working(s, n, k - 1);
      var m := ScanUpTo(w, n);
      WorkingValues(s, n, k - 1);
      assert s[..n][m] == s[m];
    }
  }

  /** The array after the call: the scratch buffer copied over the first n cells,
      the rest untouched. */
  function SortResult(s: seq<int>, n: nat): (r: seq<int>)
    requires n <= |s|
    ensures |r| == |s|
    ensures forall j :: n <= j < |s| ==> r[j] == s[j]
    ensures forall j :: 0 <= j < n ==> r[j] in multiset(s[..n]) + multiset{0}
  {
    PickedValues(s, n, n);
    Picked(s, n, n) + s[n..]
  }

  // ---------------------------------------------------------------------------
  // The method
  // ---------------------------------------------------------------------------

  predicate NonNegativePrefix(s: seq<int>, n: nat)
    requires n <= |s|
  {
    forall k :: 0 <= k < n ==> s[k] >= 0
  }

  /** Every value is at least every later value. */
  predicate NonIncreasing(p: seq<int>)
  {
    forall i, j :: 0 <= i < j < |p| ==> p[i] >= p[j]
  }

  /** Sorts the first `dimension` cells of `a` in place, largest first, through a
      scratch buffer, consuming chosen cells by writing 0 into them. */
  method Bubblesort(a: array<int>, dimension: int)
    requires 0 <= dimension <= a.Length
    modifies a
    ensures a[..] == SortResult(old(a[..]), dimension)
    ensures forall k :: dimension <= k < a.Length ==> a[k] == old(a[k])
    ensures NonNegativePrefix(old(a[..]), dimension) ==>
              NonIncreasing(a[..dimension]) && multiset(a[..dimension]) == multiset(old(a[..dimension]))
  {
    ghost var s := a[..];
    var sortedarray := new int[dimension];
    var max: int;

    for i := 0 to dimension
      invariant a[..] == Working(s, dimension, i)
      invariant sortedarray[..i] == Picked(s, dimension, i)
    {
      max := 0;
      for j := 0 to dimension
        invariant 0 <= max < dimension
        invariant max == ScanUpTo(a[..], j)
      {
        if a[j] > a[max] {
          max := j;
        }
      }
      ghost var before := a[..];
      sortedarray[i] := a[max];
      a[max] := 0;
      NextRound(s, dimension, i);
      assert a[..] == before[max := 0];
      assert sortedarray[..i + 1] == sortedarray[..i] + [before[max]];
    }

    ghost var w := a[..];
    assert sortedarray[..] == Picked(s, dimension, dimension);
    for i := 0 to dimension
      invariant forall k :: 0 <= k < i ==> a[k] == sortedarray[k]
      invariant forall k :: i <= k < a.Length ==> a[k] == w[k]
      invariant sortedarray[..] == Picked(s, dimension, dimension)
    {
      a[i] := sortedarray[i];
    }

    assert a[..] == sortedarray[..] + w[dimension..];
    if NonNegativePrefix(s, dimension) {
      NonNegativeResultDescending(s, dimension);
      NonNegativeResultPermutation(s, dimension);
      assert a[..dimension] == SortResult(s, dimension)[..dimension];
    }
  }

  // ---------------------------------------------------------------------------
  // Properties of the result
  // ---------------------------------------------------------------------------

  /** The scratch buffer only grows: the first j picks never change later. */
  lemma {:induction false} PickedPrefix(s: seq<int>, n: nat, j: nat, k: nat)
    requires n <= |s| && j <= k <= n
    ensures Picked(s, n, k)[..j] == Picked(s, n, j)
  {
    if j < k {
      PickedPrefix(s, n, j, k - 1);
      assert Picked(s, n, k)[..k - 1] == Picked(s, n, k - 1);
    }
  }

  /** Round 0 scans the untouched array, so the first cell of the result is the
      largest value of the original prefix, whatever the signs. */
  lemma FirstIsMaximum(s: seq<int>, n: nat)
    requires 0 < n <= |s|
    ensures SortResult(s, n)[0] in s[..n]
    ensures forall k :: 0 <= k < n ==> s[k] <= SortResult(s, n)[0]
  {
    PickedPrefix(s, n, 1, n);
    ScanFindsFirstMax(s, n);
    assert SortResult(s, n)[0] == s[ScanUpTo(s, n)];
    assert s[..n][ScanUpTo(s, n)] == s[ScanUpTo(s, n)];
  }

  /** With no cell to sort, the array is left exactly as it was. */
  lemma EmptyDimensionUnchanged(s: seq<int>)
    ensures SortResult(s, 0) == s
  {
  }

  /** With one cell to sort, the array is left exactly as it was, whatever its sign. */
  lemma SingleCellUnchanged(s: seq<int>)
    requires 1 <= |s|
    ensures SortResult(s, 1) == s
  {
    FirstIsMaximum(s, 1);
    assert SortResult(s, 1) == [SortResult(s, 1)[0]] + s[1..];
  }

  /** A multiset holding `k` copies of 0 and nothing else. */
  function Zeros(k: nat): (z: multiset<int>)
    ensures |z| == k
    ensures forall x :: x != 0 ==> z[x] == 0
  {
    if k == 0 then multiset{} else Zeros(k - 1) + multiset{0}
  }

  /** What holds after every round when the prefix starts non-negative: the picks are
      drawn from the original prefix, the working prefix holds the values not yet
      picked plus one 0 per round, the picks are non-increasing and none of them is
      smaller than anything still in the working prefix. */
  ghost predicate RoundsInvariant(s: seq<int>, n: nat, w: seq<int>, p: seq<int>)
    requires n <= |s| && n <= |w|
  {
    && multiset(p) <= multiset(s[..n])
    && multiset(w[..n]) == multiset(s[..n]) - multiset(p) + Zeros(|p|)
    && RoundsOrdered(n, w, p)
  }

  /** The ordering clauses of RoundsInvariant. */
  ghost predicate RoundsOrdered(n: nat, w: seq<int>, p: seq<int>)
    requires n <= |w|
  {
    && (forall j :: 0 <= j < n ==> 0 <= w[j])
    && NonIncreasing(p)
    && (forall i, j :: 0 <= i < |p| && 0 <= j < n ==> w[j] <= p[i])
  }

  /** A sub-multiset as large as the whole is the whole. */
  lemma SubMultisetOfSameSize(a: multiset<int>, b: multiset<int>)
    requires a <= b && |a| == |b|
    ensures a == b
  {
    assert a * b == a;
    assert |b - a| == 0;
    assert b - a == multiset{};
    forall x ensures a[x] == b[x] {
      assert (b - a)[x] == 0;
    }
  }

  /** The value a round picks from a non-negative working prefix has not been
      picked before: a 0 written as a marker is never larger than a value still
      waiting to be picked. */
  lemma PickIsRemaining(s: seq<int>, n: nat, w: seq<int>, p: seq<int>)
    requires n <= |s| && n <= |w| && |p| < n
    requires RoundsInvariant(s, n, w, p)
    ensures w[ScanUpTo(w, n)] in multiset(s[..n]) - multiset(p)
  {
    var m := ScanUpTo(w, n);
    var v := w[m];
    var remaining := multiset(s[..n]) - multiset(p);
    ScanFindsFirstMax(w, n);
    assert multiset(p) * multiset(s[..n]) == multiset(p);
    assert |remaining| == n - |p| > 0;
    if v !in remaining {
      assert w[..n][m] == v;
      assert v in multiset(w[..n]);
      assert v == 0;
      assert forall j :: 0 <= j < n ==> w[..n][j] == 0;
      forall x ensures remaining[x] == 0 {
        if x != 0 {
          assert x !in w[..n];
          assert multiset(w[..n])[x] == 0;
        }
      }
      assert false;
    }
  }

  /** One round keeps the multiset clauses of RoundsInvariant: the picked value
      leaves the values still to pick, and its cell now holds one more 0. */
  lemma RoundKeepsCounts(s: seq<int>, n: nat, w: seq<int>, p: seq<int>)
    requires n <= |s| && n <= |w| && |p| < n
    requires RoundsInvariant(s, n, w, p)
    ensures multiset(p + [w[ScanUpTo(w, n)]]) <= multiset(s[..n])
    ensures multiset(w[ScanUpTo(w, n) := 0][..n])
         == multiset(s[..n]) - multiset(p + [w[ScanUpTo(w, n)]]) + Zeros(|p| + 1)
  {
    var m := ScanUpTo(w, n);
    var v := w[m];
    PickIsRemaining(s, n, w, p);
    var start, picked := multiset(s[..n]), multiset(p);
    assert w[m := 0][..n] == w[..n][m := 0];
    assert w[..n][m] == v;
    var before := multiset(w[..n]);
    var after := multiset(w[m := 0][..n]);
    assert after == before - multiset{v} + multiset{0};
    assert multiset(p + [v]) == picked + multiset{v};
    assert Zeros(|p| + 1) == Zeros(|p|) + multiset{0};
    forall x ensures after[x] == (start - (picked + multiset{v}) + Zeros(|p| + 1))[x] {
    }
  }

  /** One round keeps the ordering clauses of RoundsInvariant: the picked value is
      a maximum of the working prefix and not negative. */
  lemma RoundKeepsOrder(s: seq<int>, n: nat, w: seq<int>, p: seq<int>)
    requires n <= |s| && n <= |w| && |p| < n
    requires RoundsInvariant(s, n, w, p)
    ensures RoundsOrdered(n, w[ScanUpTo(w, n) := 0], p + [w[ScanUpTo(w, n)]])
  {
    var m := ScanUpTo(w, n);
    ScanFindsFirstMax(w, n);
    assert 0 <= w[m];
  }

  /** One round keeps RoundsInvariant. */
  lemma RoundKeepsInvariant(s: seq<int>, n: nat, w: seq<int>, p: seq<int>)
    requires n <= |s| && n <= |w| && |p| < n
    requires RoundsInvariant(s, n, w, p)
    ensures RoundsInvariant(s, n, w[ScanUpTo(w, n) := 0], p + [w[ScanUpTo(w, n)]])
  {
    RoundKeepsCounts(s, n, w, p);
    RoundKeepsOrder(s, n, w, p);
  }

  /** Every round of a non-negative prefix keeps RoundsInvariant. */
  lemma {:induction false} RoundsKeepInvariant(s: seq<int>, n: nat, k: nat)
    requires n <= |s| && k <= n
    requires NonNegativePrefix(s, n)
    ensures RoundsInvariant(s, n, Working(s, n, k), Picked(s, n, k))
  {
    if k == 0 {
      assert multiset(s[..n]) == multiset(s[..n]) - multiset([]) + Zeros(0);
    } else {
      RoundsKeepInvariant(s, n, k - 1);
      var w, p := Working(s, n, k - 1), Picked(s, n, k - 1);
      RoundKeepsInvariant(s, n, w, p);
      assert Working(s, n, k) == w[ScanUpTo(w, n) := 0];
      assert Picked(s, n, k) == p + [w[ScanUpTo(w, n)]];
    }
  }

  /** On a non-negative prefix the result prefix is in descending order. */
  lemma NonNegativeResultDescending(s: seq<int>, n: nat)
    requires n <= |s| && NonNegativePrefix(s, n)
    ensures NonIncreasing(SortResult(s, n)[..n])
  {
    RoundsKeepInvariant(s, n, n);
    assert SortResult(s, n)[..n] == Picked(s, n, n);
  }

  /** On a non-negative prefix the result prefix is a permutation of the original
      prefix: nothing is lost and nothing is duplicated. */
  lemma NonNegativeResultPermutation(s: seq<int>, n: nat)
    requires n <= |s| && NonNegativePrefix(s, n)
    ensures multiset(SortResult(s, n)[..n]) == multiset(s[..n])
  {
    RoundsKeepInvariant(s, n, n);
    SubMultisetOfSameSize(multiset(Picked(s, n, n)), multiset(s[..n]));
    assert SortResult(s, n)[..n] == Picked(s, n, n);
  }

  /** Two descending sequences holding the same values are the same sequence. */
  lemma {:induction false} DescendingPermutationUnique(a: seq<int>, b: seq<int>)
    requires NonIncreasing(a) && NonIncreasing(b) && multiset(a) == multiset(b)
    ensures a == b
  {
    assert |a| == |multiset(a)| == |b|;
    if a != [] {
      assert a[0] in multiset(b);
      assert b[0] in multiset(a);
      assert a[0] == b[0];
      assert a == [a[0]] + a[1..];
      assert b == [b[0]] + b[1..];
      assert multiset(a) == multiset{a[0]} + multiset(a[1..]);
      assert multiset(b) == multiset{b[0]} + multiset(b[1..]);
      assert multiset(a[1..]) == multiset(a) - multiset{a[0]};
      assert multiset(b[1..]) == multiset(b) - multiset{b[0]};
      DescendingPermutationUnique(a[1..], b[1..]);
    }
  }

  /** Sorting a prefix that is already descending and non-negative changes nothing. */
  lemma SortedInputUnchanged(s: seq<int>, n: nat)
    requires n <= |s| && NonNegativePrefix(s, n) && NonIncreasing(s[..n])
    ensures SortResult(s, n) == s
  {
    var r := SortResult(s, n);
    NonNegativeResultDescending(s, n);
    NonNegativeResultPermutation(s, n);
    DescendingPermutationUnique(r[..n], s[..n]);
    assert r == r[..n] + r[n..];
    assert s == s[..n] + s[n..];
  }

  /** The cell round 0 marks is never chosen for anything but another 0: it holds
      0 in every later round. */
  lemma {:induction false} FirstMarkerStays(s: seq<int>, n: nat, i: nat)
    requires 0 < n <= |s| && 1 <= i <= n
    ensures Working(s, n, i)[ScanUpTo(s, n)] == 0
  {
    NextRound(s, n, i - 1);
    if i > 1 {
      FirstMarkerStays(s, n, i - 1);
    }
  }

  /** From round 1 on, the working prefix holds the marker of round 0, so every
      later pick is at least 0, whatever the signs of the input. */
  lemma LaterPicksNonNegative(s: seq<int>, n: nat, i: nat)
    requires 0 < n <= |s| && 1 <= i < n
    ensures SortResult(s, n)[i] >= 0
  {
    FirstMarkerStays(s, n, i);
    var w := Working(s, n, i);
    ScanFindsFirstMax(w, n);
    NextRound(s, n, i);
    PickedPrefix(s, n, i + 1, n);
    assert SortResult(s, n)[i] == Picked(s, n, i + 1)[i] == w[ScanUpTo(w, n)];
  }

  /** With two or more cells, one negative value is enough to break the permutation:
      either the largest value is at least 0 and every pick is at least 0, so the
      negative value is lost, or every value is negative and the second pick is a 0
      the input never held. Non-negativity is therefore necessary as well as
      sufficient. */
  lemma NegativeBreaksPermutation(s: seq<int>, n: nat, k: nat)
    requires 2 <= n <= |s| && k < n && s[k] < 0
    ensures multiset(SortResult(s, n)[..n]) != multiset(s[..n])
  {
    var r := SortResult(s, n)[..n];
    FirstIsMaximum(s, n);
    LaterPicksNonNegative(s, n, 1);
    if r[0] < 0 {
      assert r[1] !in s[..n];
      assert r[1] in multiset(r);
    } else {
      forall i | 0 <= i < n ensures r[i] >= 0 {
        if i >= 1 {
          LaterPicksNonNegative(s, n, i);
        }
      }
      assert s[..n][k] == s[k];
      assert s[k] in multiset(s[..n]);
      assert s[k] !in r;
    }
  }

  // ---------------------------------------------------------------------------
  // Worked inputs
  // ---------------------------------------------------------------------------

  /** Equal maxima are both kept: [5, 5, 3] is already in order. */
  lemma TiesKept()
    ensures SortResult([5, 5, 3], 3) == [5, 5, 3]
  {
    SortedInputUnchanged([5, 5, 3], 3);
  }

  /** On a non-negative prefix the result prefix is the one descending arrangement
      of the prefix's values. */
  lemma NonNegativeResultIsArrangement(s: seq<int>, n: nat, t: seq<int>)
    requires n <= |s| && NonNegativePrefix(s, n)
    requires NonIncreasing(t) && multiset(t) == multiset(s[..n])
    ensures SortResult(s, n)[..n] == t
  {
    NonNegativeResultDescending(s, n);
    NonNegativeResultPermutation(s, n);
    DescendingPermutationUnique(SortResult(s, n)[..n], t);
  }

  /** [4, 1, 7, 3, 7] sorts to [7, 7, 4, 3, 1]. */
  lemma FiveValues()
    ensures SortResult([4, 1, 7, 3, 7], 5) == [7, 7, 4, 3, 1]
  {
    var s, t := [4, 1, 7, 3, 7], [7, 7, 4, 3, 1];
    assert s[..5] == s;
    NonNegativeResultIsArrangement(s, 5, t);
  }

  /** An all-negative input: the first pick leaves a 0 that the second round then
      takes as the largest value, so -2 is lost and the result is not descending. */
  lemma NegativePairMisSorted()
    ensures SortResult([-1, -2], 2) == [-1, 0]
    ensures !NonIncreasing(SortResult([-1, -2], 2))
    ensures multiset(SortResult([-1, -2], 2)) != multiset([-1, -2])
  {
    var s := [-1, -2];
    assert ScanUpTo(s, 2) == 0;
    NextRound(s, 2, 0);
    assert ScanUpTo([0, -2], 2) == 0;
    NextRound(s, 2, 1);
    var r := Picked(s, 2, 2);
    assert r == [-1, 0];
    assert r[0] < r[1];
    assert multiset(r)[-2] == 0;
  }

  /** A mixed input: once the non-negative values are used up, the markers beat -1,
      so -1 is lost and a second 0 takes its place. */
  lemma MixedSignsLoseNegative()
    ensures SortResult([3, -1, 0, 2], 4) == [3, 2, 0, 0]
    ensures multiset(SortResult([3, -1, 0, 2], 4)) != multiset([3, -1, 0, 2])
  {
    var s := [3, -1, 0, 2];
    assert ScanUpTo(s, 4) == 0;
    NextRound(s, 4, 0);
    assert ScanUpTo([0, -1, 0, 2], 4) == 3;
    NextRound(s, 4, 1);
    assert ScanUpTo([0, -1, 0, 0], 4) == 0;
    NextRound(s, 4, 2);
    NextRound(s, 4, 3);
    var r := Picked(s, 4, 4);
    assert r == [3, 2, 0, 0];
    assert multiset(r)[-1] == 0;
  }
}
