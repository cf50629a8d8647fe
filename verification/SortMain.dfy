/** `main` of sort.c: it generates whole numbers, sorts them together with one slot too many, and
    compares neighbours. */
module SortMain {
  import opened TruncatingSort
  import opened SortExactness

  // ---- The extra slot ----

  lemma SplitLast(s: seq<real>)
    requires |s| > 0
    ensures multiset(s) == multiset(s[..|s| - 1]) + multiset{s[|s| - 1]}
    ensures multiset(Truncs(s)) == multiset(Truncs(s[..|s| - 1])) + multiset{Trunc(s[|s| - 1])}
  {
    var n := |s| - 1;
    assert s == s[..n] + [s[n]];
    TruncsConcat(s[..n], [s[n]]);
    assert Truncs([s[n]]) == [Trunc(s[n])];
  }

  /** The largest whole value is truncated to the same number before and after the sort. */
  lemma LastTruncsAgree(before: seq<real>, after: seq<real>)
    requires TruncatedPermutation(before, after) && Sorted(after) && |before| > 0
    requires forall i :: 0 <= i < |before| - 1 ==> Trunc(before[i]) <= Trunc(before[|before| - 1])
    ensures Trunc(after[|after| - 1]) == Trunc(before[|before| - 1])
  {
    var n := |before| - 1;
    assert Truncs(after)[n] in multiset(Truncs(before));
    var j :| 0 <= j <= n && Truncs(before)[j] == Truncs(after)[n];
    assert Truncs(before)[n] in multiset(Truncs(after));
    var k :| 0 <= k <= n && Truncs(after)[k] == Truncs(before)[n];
    TruncMonotone(after[k], after[n]);
  }

  lemma FractionCount(before: seq<real>, after: seq<real>, x: real)
    requires TruncatedPermutation(before, after) && |before| > 0
    requires AllIntegral(before[..|before| - 1])
    ensures !Integral(x) ==> multiset(after)[x] <= multiset{before[|before| - 1]}[x]
  {
    SplitLast(before);
    if x in before[..|before| - 1] {
      var i :| 0 <= i < |before| - 1 && before[..|before| - 1][i] == x;
    }
  }

  /** A fraction can only end in the last slot, because the last slot was the only one to hold one. */
  lemma FractionStaysLast(before: seq<real>, after: seq<real>, j: nat)
    requires TruncatedPermutation(before, after) && Sorted(after) && |before| > 0
    requires AllIntegral(before[..|before| - 1]) && before[|before| - 1] >= 0.0
    requires j < |after| - 1 && Trunc(after[|after| - 1]) == Trunc(before[|before| - 1])
    ensures Integral(after[j])
  {
    var n := |before| - 1;
    var x, y := after[j], after[n];
    FractionCount(before, after, x);
    FractionCount(before, after, y);
    SplitLast(after);
    assert after[..n][j] == x;
    assert multiset(after[..n])[x] >= 1;
    assert multiset(after)[y] >= 1;
    assert x <= y;
    TruncMonotone(x, y);
  }

  lemma TruncsOfIntegral(s: seq<real>)
    requires AllIntegral(s)
    ensures Truncs(s) == s
  {
  }

  /** If only the last slot may hold a fraction, the other slots keep their values exactly when the
      last slot keeps its truncated value. */
  lemma LastDecides(before: seq<real>, after: seq<real>)
    requires TruncatedPermutation(before, after) && |before| > 0
    requires AllIntegral(before[..|before| - 1]) && AllIntegral(after[..|before| - 1])
    ensures multiset(after[..|before| - 1]) == multiset(before[..|before| - 1])
       <==> Trunc(after[|before| - 1]) == Trunc(before[|before| - 1])
  {
    var n := |before| - 1;
    assert multiset(Truncs(before)) == multiset(Truncs(after)) && |after| == |before|;
    TruncsOfIntegral(before[..n]);
    TruncsOfIntegral(after[..n]);
    hide TruncatedPermutation, AllIntegral, Trunc;
    SplitLast(before);
    SplitLast(after);
    CancelRight(multiset(before[..n]), multiset(after[..n]), Trunc(before[n]), Trunc(after[n]));
  }

  /** A slot that is at least as large as every whole value takes the largest truncated value. */
  lemma LargeSlotKeepsData(before: seq<real>, after: seq<real>)
    requires TruncatedPermutation(before, after) && Sorted(after) && |before| > 0
    requires AllIntegral(before[..|before| - 1]) && before[|before| - 1] >= 0.0
    requires forall i :: 0 <= i < |before| - 1 ==> before[i] <= before[|before| - 1]
    ensures multiset(after[..|before| - 1]) == multiset(before[..|before| - 1])
  {
    assert |after| == |before|;
    hide TruncatedPermutation, Trunc;
    var n := |before| - 1;
    forall i | 0 <= i < n
      ensures Trunc(before[i]) <= Trunc(before[n])
    {
      TruncMonotone(before[i], before[n]);
    }
    LastTruncsAgree(before, after);
    forall j | 0 <= j < n
      ensures Integral(after[j])
    {
      FractionStaysLast(before, after, j);
    }
    LastDecides(before, after);
  }

  lemma KeptDataAgreesOnLast(before: seq<real>, after: seq<real>)
    requires TruncatedPermutation(before, after) && |before| > 0
    requires AllIntegral(before[..|before| - 1])
    requires multiset(after[..|before| - 1]) == multiset(before[..|before| - 1])
    ensures AllIntegral(after[..|before| - 1])
    ensures Trunc(after[|before| - 1]) == Trunc(before[|before| - 1])
  {
    var n := |before| - 1;
    IntegralIsExactHere(before[..n], after[..n]);
    LastDecides(before, after);
  }

  lemma KeptDataIsBelowSlot(before: seq<real>, after: seq<real>, i: nat)
    requires TruncatedPermutation(before, after) && Sorted(after)
    requires i < |before| - 1 && AllIntegral(before[..|before| - 1])
    requires multiset(after[..|before| - 1]) == multiset(before[..|before| - 1])
    ensures before[i] <= Trunc(before[|before| - 1])
  {
    var n := |before| - 1;
    KeptDataAgreesOnLast(before, after);
    assert before[..n][i] == before[i] && before[..n][i] in multiset(after[..n]);
    var j :| 0 <= j < n && after[..n][j] == before[i];
    TruncMonotone(after[j], after[n]);
  }

  lemma IntegralIsExactHere(s: seq<real>, t: seq<real>)
    requires AllIntegral(s) && multiset(s) == multiset(t)
    ensures AllIntegral(t)
  {
    forall j | 0 <= j < |t|
      ensures Integral(t[j])
    {
      assert t[j] in multiset(s);
    }
  }

  /** What `quicksort(A, 0, n)` does to slots 0..n, as sequences of their own. */
  lemma SlicesAfterSort(s: seq<real>, n: nat, rand: Rand)
    requires ConvertibleBetween(s, 0, n)
    ensures var t := QuicksortOf(s, 0, n, rand);
            && TruncatedPermutation(s[..n + 1], t[..n + 1]) && Sorted(t[..n + 1]) && t[n + 1..] == s[n + 1..]
  {
    hide QuicksortOf, PartitionOf, TruncatedPermutation, Lost, Picked;
    var t := QuicksortOf(s, 0, n, rand);
    QuicksortSorts(s, 0, n, rand);
    SliceOfRearranged(s, t, 0, n);
    assert s[0..n + 1] == s[..n + 1] && t[0..n + 1] == t[..n + 1];
  }

  // ---- A negative extra slot ----

  /** A pivot that nothing exceeds makes every exchange one of a slot with itself, which truncates it. */
  lemma {:induction false} LoopOnMaximum(s: seq<real>, index: nat, end: nat, pivotVal: real)
    requires index <= end < |s| && forall j :: index <= j <= end ==> s[j] <= pivotVal
    ensures var t := PartitionLoop(s, index, index, end, pivotVal).0;
            (forall j :: index <= j <= end ==> t[j] == Trunc(s[j])) && forall j :: 0 <= j < index ==> t[j] == s[j]
    decreases end - index
  {
    hide Trunc;
    if index < end {
      LoopOnMaximum(Swapped(s, index, index), index + 1, end, pivotVal);
    }
  }

  lemma MaximumPivotTruncates(s: seq<real>, start: nat, end: nat, random: nat)
    requires start < end < |s|
    requires forall j :: start <= j <= end ==> s[j] <= Trunc(s[PivotFor(random, start, end)])
    ensures WholeBetween(PartitionOf(s, start, end, random).0, start, end)
  {
    var pivot := PivotFor(random, start, end);
    var s1 := Swapped(s, pivot, end);
    TruncIntegral(s[pivot]);
    LoopOnMaximum(s1, start, end, s1[end]);
    forall j | start <= j <= end
      ensures Integral(Trunc(s1[j]))
    {
      TruncIntegral(s1[j]);
    }
  }

  /** The only whole number between -1 and 0 is 0, and a slot between them is truncated to 0. */
  lemma NothingBelowZero(s: seq<real>, n: nat)
    requires ConvertibleBetween(s, 0, n) && WholeBelow(s, n) && s[n] < 0.0
    requires forall i :: 0 <= i < n ==> s[i] <= Trunc(s[n])
    ensures Trunc(s[n]) == 0.0 && forall i :: 0 <= i < n ==> s[i] == 0.0
  {
    ToUnsignedInRange(s[n]);
    forall i | 0 <= i < n
      ensures s[i] == 0.0
    {
      ToUnsignedInRange(s[i]);
    }
  }

  ghost predicate WholeBelow(s: seq<real>, n: nat) {
    n < |s| && forall i :: 0 <= i < n ==> Integral(s[i])
  }

  ghost predicate TruncatesToZero(s: seq<real>) {
    forall j :: 0 <= j < |s| ==> Trunc(s[j]) == 0.0
  }

  lemma ZerosStay(before: seq<real>, after: seq<real>, i: nat)
    requires TruncatedPermutation(before, after) && i < |after| && Integral(after[i])
    requires TruncatesToZero(before)
    ensures after[i] == 0.0
  {
    assert Truncs(after)[i] in multiset(Truncs(before));
    var j :| 0 <= j < |before| && Truncs(before)[j] == Truncs(after)[i];
  }

  lemma MaximumPivotGoesOn(s: seq<real>, start: nat, end: nat, rand: Rand)
    requires start < end && ConvertibleBetween(s, start, end)
    requires WholeBetween(PartitionOf(s, start, end, rand(start, end)).0, start, end)
    ensures WholeBetween(QuicksortOf(s, start, end, rand), start, end)
  {
    hide QuicksortOf, PartitionOf, Rearranged, WholeBetween, SortedBetween, Lost, Picked, Convertible;
    QuicksortSorts(s, start, end, rand);
    WholeSliceIsPermuted(PartitionOf(s, start, end, rand(start, end)).0, QuicksortOf(s, start, end, rand), start, end);
  }

  ghost predicate ZerosThenNegative(s: seq<real>, n: nat) {
    && n >= 1 && ConvertibleBetween(s, 0, n) && s[n] < 0.0 && Trunc(s[n]) == 0.0
    && forall j :: 0 <= j < n ==> s[j] == 0.0
  }

  lemma ZeroPivotTruncates(s: seq<real>, n: nat, random: nat)
    requires ZerosThenNegative(s, n)
    ensures WholeBetween(PartitionOf(s, 0, n, random).0, 0, n)
  {
    assert Trunc(0.0) == 0.0;
    hide PartitionOf, Trunc, PivotFor, Convertible;
    MaximumPivotTruncates(s, 0, n, random);
  }

  lemma ZerosTruncate(s: seq<real>, n: nat)
    requires ZerosThenNegative(s, n)
    ensures TruncatesToZero(s[..n + 1])
  {
    assert Trunc(0.0) == 0.0;
    hide Trunc;
  }

  lemma WholeAt(s: seq<real>, n: nat, i: nat)
    requires WholeBetween(s, 0, n) && i <= n
    ensures s[..n + 1][i] == s[i] && Integral(s[i])
  {
  }

  /** Zeros before a negative slot are zeros afterwards. */
  lemma NegativeSlotKeepsZeros(s: seq<real>, n: nat, rand: Rand, i: nat)
    requires ZerosThenNegative(s, n) && i <= n
    ensures QuicksortOf(s, 0, n, rand)[i] == 0.0
  {
    ZerosTruncate(s, n);
    ZeroPivotTruncates(s, n, rand(0, n));
    assert n >= 1 && ConvertibleBetween(s, 0, n);
    hide ZerosThenNegative, TruncatesToZero, QuicksortOf, PartitionOf, TruncatedPermutation, Integral, WholeBetween,
         Sorted, ConvertibleBetween;
    MaximumPivotGoesOn(s, 0, n, rand);
    SlicesAfterSort(s, n, rand);
    WholeAt(QuicksortOf(s, 0, n, rand), n, i);
    ZerosStay(s[..n + 1], QuicksortOf(s, 0, n, rand)[..n + 1], i);
  }

  // ---- What `main` does ----

  lemma SlotBelowKeepsData(s: seq<real>, n: nat, rand: Rand)
    requires n >= 1 && ConvertibleBetween(s, 0, n) && WholeBelow(s, n) && s[n] < 0.0
    requires forall i :: 0 <= i < n ==> s[i] <= Trunc(s[n])
    ensures var t := QuicksortOf(s, 0, n, rand); multiset(t[..n]) == multiset(s[..n])
  {
    hide QuicksortOf, Trunc;
    NothingBelowZero(s, n);
    forall i | 0 <= i < n
      ensures QuicksortOf(s, 0, n, rand)[i] == s[i]
    {
      NegativeSlotKeepsZeros(s, n, rand, i);
    }
    assert QuicksortOf(s, 0, n, rand)[..n] == s[..n];
  }

  lemma SlotAboveKeepsData(s: seq<real>, n: nat, rand: Rand)
    requires n >= 1 && ConvertibleBetween(s, 0, n) && WholeBelow(s, n) && s[n] >= 0.0
    requires forall i :: 0 <= i < n ==> s[i] <= s[n]
    ensures var t := QuicksortOf(s, 0, n, rand); multiset(t[..n]) == multiset(s[..n])
  {
    hide QuicksortOf, TruncatedPermutation, Sorted, Trunc;
    var t := QuicksortOf(s, 0, n, rand);
    SlicesAfterSort(s, n, rand);
    assert s[..n + 1][..n] == s[..n] && t[..n + 1][..n] == t[..n];
    LargeSlotKeepsData(s[..n + 1], t[..n + 1]);
  }

  lemma KeptDataNeedsSlot(s: seq<real>, n: nat, rand: Rand, i: nat)
    requires n >= 1 && ConvertibleBetween(s, 0, n) && WholeBelow(s, n) && i < n
    requires var t := QuicksortOf(s, 0, n, rand); multiset(t[..n]) == multiset(s[..n])
    ensures s[i] <= Trunc(s[n])
  {
    hide QuicksortOf, TruncatedPermutation, Sorted, Trunc;
    var t := QuicksortOf(s, 0, n, rand);
    SlicesAfterSort(s, n, rand);
    assert s[..n + 1][..n] == s[..n] && t[..n + 1][..n] == t[..n];
    KeptDataIsBelowSlot(s[..n + 1], t[..n + 1], i);
  }

  /** `main` sorts one slot too many. Whatever `rand` returns, the first `n` slots still hold the
      generated values afterwards exactly when none of them exceeded the extra slot, truncated. */
  lemma ExtraSlotKeepsData(s: seq<real>, n: nat, rand: Rand)
    requires n >= 1 && ConvertibleBetween(s, 0, n) && WholeBelow(s, n)
    ensures var t := QuicksortOf(s, 0, n, rand);
            multiset(t[..n]) == multiset(s[..n]) <==> forall i :: 0 <= i < n ==> s[i] <= Trunc(s[n])
  {
    TruncBelow(s[n]);
    hide QuicksortOf, Trunc;
    var t := QuicksortOf(s, 0, n, rand);
    if multiset(t[..n]) == multiset(s[..n]) {
      forall i | 0 <= i < n
        ensures s[i] <= Trunc(s[n])
      {
        KeptDataNeedsSlot(s, n, rand, i);
      }
    } else if forall i :: 0 <= i < n ==> s[i] <= Trunc(s[n]) {
      if s[n] >= 0.0 {
        SlotAboveKeepsData(s, n, rand);
      } else {
        SlotBelowKeepsData(s, n, rand);
      }
    }
  }

  lemma TruncBelow(x: real)
    ensures x >= 0.0 ==> Trunc(x) <= x
  {
  }

  /** `array_size - 1` in 32-bit unsigned arithmetic. */
  function VerifyBound(arraySize: nat): nat {
    (arraySize + 0xffff_ffff) % 0x1_0000_0000
  }

  /** The verification loop compares the slots 0..VerifyBound, which all lie in the array exactly
      when there is something to sort. */
  lemma VerifyLoopStaysInside(arraySize: nat)
    requires arraySize < 0x1_0000_0000
    ensures VerifyBound(arraySize) < arraySize <==> arraySize >= 1
    ensures arraySize == 0 ==> VerifyBound(arraySize) == 0xffff_ffff
    ensures arraySize >= 1 ==> VerifyBound(arraySize) == arraySize - 1
  {
  }

  /** `Outside`: the loop has come to the end of the mapping, and its next access is undefined. */
  datatype Verdict = Fine | ErrorAt(location: nat) | Outside

  /** The VERIFY_CORRECT loop: it compares all neighbours up to slot VerifyBound, which for size 0 is the
      largest unsigned number, and reaches `error_quit` exactly on an unsorted array. */
  method VerifySorted(A: array<real>, arraySize: nat) returns (verdict: Verdict)
    requires arraySize <= A.Length && arraySize < 0x1_0000_0000
    ensures verdict == Fine <==> VerifyBound(arraySize) < A.Length && Sorted(A[..VerifyBound(arraySize) + 1])
    ensures verdict == Outside <==> A.Length <= VerifyBound(arraySize) && Sorted(A[..])
    ensures verdict.ErrorAt? ==>
              && verdict.location + 1 < A.Length && verdict.location < VerifyBound(arraySize)
              && A[verdict.location] > A[verdict.location + 1]
              && Sorted(A[..verdict.location + 1])
  {
    VerifyLoopStaysInside(arraySize);
    hide VerifyBound;
    var bound := VerifyBound(arraySize);
    var index := 0;
    while index < bound
      invariant index <= bound && (index < A.Length || (index == 0 && bound > 0 && A.Length == 0))
      invariant index < A.Length ==> Sorted(A[..index + 1])
    {
      if index + 1 >= A.Length {
        assert A.Length > 0 ==> A[..] == A[..index + 1];
        return Outside;
      }
      if !(A[index] <= A[index + 1]) {
        Descent(A[..], index);
        return ErrorAt(index);
      }
      SortedSnoc(A[..index + 1], A[index + 1]);
      assert A[..index + 2] == A[..index + 1] + [A[index + 1]];
      index := index + 1;
    }
    verdict := Fine;
  }

  lemma Descent(s: seq<real>, i: nat)
    requires i + 1 < |s| && s[i] > s[i + 1]
    ensures !Sorted(s) && forall n :: i + 1 < n <= |s| ==> !Sorted(s[..n])
  {
    forall n | i + 1 < n <= |s|
      ensures !Sorted(s[..n])
    {
      assert s[..n][i] > s[..n][i + 1];
    }
  }

  lemma SortedSnoc(s: seq<real>, x: real)
    requires Sorted(s) && |s| > 0 && s[|s| - 1] <= x
    ensures Sorted(s + [x])
  {
  }

  /** The generating loop of `main`: `randoms` are the numbers that `rand` returns. */
  method Generate(A: array<real>, randoms: seq<nat>)
    requires |randoms| <= A.Length && forall k :: 0 <= k < |randoms| ==> randoms[k] <= RAND_MAX
    modifies A
    ensures forall k :: 0 <= k < |randoms| ==> A[k] == randoms[k] as real
    ensures AllIntegral(A[..|randoms|])
    ensures forall k :: 0 <= k < |randoms| ==> Convertible(A[k]) && A[k] >= 0.0
    ensures A[|randoms|..] == old(A[|randoms|..])
  {
    for index := 0 to |randoms|
      invariant forall k :: 0 <= k < index ==> A[k] == randoms[k] as real
      invariant forall k :: 0 <= k < index ==> Integral(A[k]) && Convertible(A[k]) && A[k] >= 0.0
      invariant A[|randoms|..] == old(A[|randoms|..])
    {
      assert (randoms[index] as real).Floor == randoms[index];
      A[index] := randoms[index] as real;
    }
  }

  /** The body of `main` with VERIFY_CORRECT defined. `A` is the mapping: if there is anything to sort,
      its slot `arraySize` must exist and hold a convertible value, because `quicksort` treats `end` as
      inclusive. Without anything to sort the check runs through the mapping and out of it, unless that
      is 2^32 slots long. */
  method GenerateSortVerify(A: array<real>, arraySize: nat, randoms: seq<nat>, rand: Rand)
    returns (generated: seq<real>, verdict: Verdict)
    requires |randoms| == arraySize && forall k :: 0 <= k < arraySize ==> randoms[k] <= RAND_MAX
    requires arraySize >= 1 ==> arraySize < A.Length && Convertible(A[arraySize])
    requires arraySize < 0x1_0000_0000
    modifies A
    ensures |generated| == arraySize && forall k :: 0 <= k < arraySize ==> generated[k] == randoms[k] as real
    ensures arraySize >= 1 ==> verdict == Fine
    ensures arraySize >= 1 ==> TruncatedPermutation(generated + [old(A[arraySize])], A[..arraySize + 1])
    ensures arraySize >= 1 ==> Sorted(A[..arraySize + 1]) && A[arraySize + 1..] == old(A[arraySize + 1..])
    ensures arraySize >= 1 ==>
              (multiset(A[..arraySize]) == multiset(generated)
               <==> forall i :: 0 <= i < arraySize ==> generated[i] <= Trunc(old(A[arraySize])))
    ensures arraySize == 0 ==> A[..] == old(A[..])
    ensures arraySize == 0 && A.Length < 0x1_0000_0000 ==> (verdict == Outside <==> Sorted(A[..])) && verdict != Fine
  {
    VerifyLoopStaysInside(arraySize);
    hide VerifyBound, TruncatedPermutation, QuicksortOf, Integral, Trunc, Sorts;
    ghost var all := A[..];
    Generate(A, randoms);
    generated := A[..arraySize];
    ghost var before := A[..];
    assert before[arraySize..] == all[arraySize..];
    Quicksort(A, 0, arraySize, rand);
    ghost var after := A[..];
    if arraySize >= 1 {
      assert before[arraySize] == before[arraySize..][0] == all[arraySize..][0] == all[arraySize];
      MainOutcome(before, arraySize, rand, generated, all[arraySize]);
      assert after[..arraySize + 1] == A[..arraySize + 1] && after[..arraySize] == A[..arraySize];
      assert A[arraySize + 1..] == after[arraySize + 1..] == before[arraySize..][1..] == all[arraySize..][1..];
    } else {
      NoLevel(before, 0, 0, rand);
      assert before == before[0..] == all;
    }
    verdict := VerifySorted(A, arraySize);
  }

  lemma MainOutcome(before: seq<real>, n: nat, rand: Rand, generated: seq<real>, slot: real)
    requires 1 <= n && ConvertibleBetween(before, 0, n)
    requires before[..n] == generated && before[n] == slot && AllIntegral(generated)
    ensures var after := QuicksortOf(before, 0, n, rand);
            && TruncatedPermutation(generated + [slot], after[..n + 1])
            && Sorted(after[..n + 1]) && Sorted(after[..n]) && after[n + 1..] == before[n + 1..]
            && (multiset(after[..n]) == multiset(generated) <==> forall i :: 0 <= i < n ==> generated[i] <= Trunc(slot))
  {
    hide QuicksortOf, PartitionOf, TruncatedPermutation, Trunc, Integral, Convertible, Sorted;
    var after := QuicksortOf(before, 0, n, rand);
    forall i | 0 <= i < n
      ensures before[i] == generated[i]
    {
      assert before[..n][i] == generated[i];
    }
    ExtraSlotKeepsData(before, n, rand);
    SlicesAfterSort(before, n, rand);
    assert before[..n + 1] == generated + [slot];
    SortedPrefix(after[..n + 1], n);
    assert after[..n + 1][..n] == after[..n];
  }

  lemma SortedPrefix(s: seq<real>, n: nat)
    requires Sorted(s) && n <= |s|
    ensures Sorted(s[..n])
  {
  }
}
