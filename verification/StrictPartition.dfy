/** `partition` in sort.c promises smaller values before the pivot and greater ones after it. It splits
    that strictly when the truncated pivot occurs once among the truncated values; on whole numbers
    exactly then. */
module StrictPartition {
  import opened TruncatingSort
  import opened SortExactness

  ghost predicate SplitsStrictly(s: seq<real>, start: nat, end: nat, q: nat) {
    && start <= q <= end < |s|
    && (forall k :: start <= k < q ==> s[k] < s[q])
    && (forall k :: q < k <= end ==> s[k] > s[q])
  }

  lemma AtTwoPlaces(s: seq<real>, i: nat, j: nat)
    requires i < j < |s| && s[i] == s[j]
    ensures multiset(s)[s[i]] >= 2
  {
    assert s == s[..j] + s[j..];
    assert s[..j][i] == s[j..][0] == s[i];
    assert s[i] in multiset(s[..j]) && s[i] in multiset(s[j..]);
  }

  lemma AtOnePlace(s: seq<real>, i: nat)
    requires i < |s| && forall j :: 0 <= j < |s| && j != i ==> s[j] != s[i]
    ensures multiset(s)[s[i]] == 1
  {
    assert s == s[..i] + [s[i]] + s[i + 1..];
    assert s[i] !in s[..i] && s[i] !in s[i + 1..];
  }

  /** What the first partition does to the slice, as a sequence of its own. */
  lemma PartitionedSlice(s: seq<real>, start: nat, end: nat, random: nat)
    requires start < end && ConvertibleBetween(s, start, end)
    ensures var (t, q) := PartitionOf(s, start, end, random);
            && Partitioned(t, start, end, q) && t[q] == Trunc(s[PivotFor(random, start, end)])
            && TruncatedPermutation(s[start..end + 1], t[start..end + 1])
            && (WholeBetween(s, start, end) ==> multiset(t[start..end + 1]) == multiset(s[start..end + 1]))
  {
    PartitionFacts(s, start, end, random);
    hide PartitionOf, PivotFor, Trunc, Convertible, Integral, TruncatedPermutation, Lost, Picked;
    var t := PartitionOf(s, start, end, random).0;
    SliceOfRearranged(s, t, start, end);
    if WholeBetween(s, start, end) {
      IntegralIsExact(s[start..end + 1], t[start..end + 1]);
    }
  }

  /** A pivot that no other value is truncated to splits the slice strictly. */
  lemma UniquePivotSplitsStrictly(s: seq<real>, start: nat, end: nat, random: nat)
    requires start < end && ConvertibleBetween(s, start, end)
    requires multiset(Truncs(s[start..end + 1]))[Trunc(s[PivotFor(random, start, end)])] == 1
    ensures var (t, q) := PartitionOf(s, start, end, random); SplitsStrictly(t, start, end, q)
  {
    var (t, q) := PartitionOf(s, start, end, random);
    PartitionedSlice(s, start, end, random);
    var truncs := Truncs(t[start..end + 1]);
    assert multiset(truncs)[t[q]] == 1;
    hide PartitionOf, PivotFor, TruncatedPermutation, Convertible;
    forall k | start <= k <= end && k != q
      ensures t[k] != t[q]
    {
      assert truncs[k - start] == Trunc(t[k]) && truncs[q - start] == Trunc(t[q]) == t[q];
      if t[k] == t[q] {
        AtTwoPlaces(truncs, if k < q then k - start else q - start, if k < q then q - start else k - start);
      }
    }
  }

  /** On whole numbers the split is strict exactly when the pivot occurs once in the slice. */
  lemma StrictExactlyForUnique(s: seq<real>, start: nat, end: nat, random: nat)
    requires start < end && ConvertibleBetween(s, start, end) && WholeBetween(s, start, end)
    ensures var (t, q) := PartitionOf(s, start, end, random);
            SplitsStrictly(t, start, end, q) <==> multiset(s[start..end + 1])[s[PivotFor(random, start, end)]] == 1
  {
    var pivot := PivotFor(random, start, end);
    var (t, q) := PartitionOf(s, start, end, random);
    PartitionedSlice(s, start, end, random);
    assert Integral(s[pivot]);
    hide PartitionOf, PivotFor, TruncatedPermutation, Convertible;
    var before, after := s[start..end + 1], t[start..end + 1];
    assert after[q - start] == t[q] == s[pivot];
    if SplitsStrictly(t, start, end, q) {
      AtOnePlace(after, q - start);
    } else if multiset(before)[s[pivot]] == 1 {
      assert AllIntegral(before);
      TruncsAreValues(before);
      UniquePivotSplitsStrictly(s, start, end, random);
    }
  }

  lemma TruncsAreValues(s: seq<real>)
    requires AllIntegral(s)
    ensures Truncs(s) == s
  {
  }

  /** A slice of equal whole numbers is not split strictly, whatever `rand` returns. */
  lemma EqualPairIsLoose(s: seq<real>, start: nat, end: nat, random: nat)
    requires s == [5.0, 5.0] && start == 0 && end == 1
    ensures var (t, q) := PartitionOf(s, start, end, random); !SplitsStrictly(t, start, end, q)
  {
    assert Trunc(5.0) == 5.0;
    hide PartitionOf, IsRemainder;
    assert s[start..end + 1] == s;
    AtTwoPlaces(s, 0, 1);
    StrictExactlyForUnique(s, start, end, random);
  }

  /** One turn of the loop. */
  lemma OneTurn(s: seq<real>, target: nat, index: nat, end: nat, pivotVal: real)
    requires target <= index <= end < |s|
    ensures PartitionLoop(s, target, index, end, pivotVal) ==
              if index == end then (Swapped(s, target, end), target)
              else if s[index] <= pivotVal then
                PartitionLoop(Swapped(s, target, index), target + 1, index + 1, end, pivotVal)
              else PartitionLoop(s, target, index + 1, end, pivotVal)
  {
  }

  lemma FirstExchange(s: seq<real>, start: nat, end: nat, random: nat)
    requires start < end < |s|
    ensures var s1 := Swapped(s, PivotFor(random, start, end), end);
            PartitionOf(s, start, end, random) == PartitionLoop(s1, start, start, end, Trunc(s1[end]))
  {
    hide PartitionLoop, Swapped, PivotFor, Trunc;
  }

  lemma Exchanges(s: seq<real>, s1: seq<real>, s2: seq<real>, i: nat)
    requires s == [5.5, 5.0, 1.0] && s1 == [5.5, 1.0, 5.0] && s2 == [1.0, 5.0, 5.0] && i == 0
    ensures Swapped(s, i + 1, i + 2) == s1 && Swapped(s1, i, i + 1) == s2 && Swapped(s2, i + 1, i + 2) == s2
    ensures Trunc(5.0) == 5.0
  {
    assert Trunc(5.0) == 5.0 && Trunc(5.5) == 5.0 && Trunc(1.0) == 1.0;
    hide Trunc;
  }

  /** Nor is one in which 5.5 passes the temporary and becomes equal to the pivot 5, although it occurs
      once. */
  lemma TruncationIsLoose(s: seq<real>, start: nat, end: nat, random: nat)
    requires s == [5.5, 5.0, 1.0] && start == 0 && end == 2 && random == 1
    ensures var (t, q) := PartitionOf(s, start, end, random);
            t == [1.0, 5.0, 5.0] && q == 1 && !SplitsStrictly(t, start, end, q)
  {
    hide PartitionOf, PartitionLoop, Swapped, Trunc, IsRemainder, PivotFor;
    var s1, s2 := [5.5, 1.0, 5.0], [1.0, 5.0, 5.0];
    SmallRandom(random, start, end);
    Exchanges(s, s1, s2, start);
    FirstExchange(s, start, end, random);
    OneTurn(s1, start, start, end, 5.0);
    OneTurn(s1, start, start + 1, end, 5.0);
    OneTurn(s2, start + 1, end, end, 5.0);
    assert s2[start + 1] == s2[end];
  }
}
