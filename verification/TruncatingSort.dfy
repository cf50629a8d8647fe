/** The randomized quicksort of labs/lab2/user/sort.c. `swap` keeps its temporary in an
    `unsigned`, so every value that passes through the temporary loses its fraction.
    Doubles are modelled as reals: each conversion below is exact on doubles. */
module TruncatingSort {
  import opened Arithmetic

  const RAND_MAX: int := 0x7fff_ffff

  // ---- Conversion of a double to unsigned (section 6.3.1.4 of ISO C11) ----

  /** Discards the fraction, rounding towards zero. */
  function Trunc(x: real): real {
    if x < 0.0 then -((-x).Floor as real) else x.Floor as real
  }

  /** The values whose conversion to a 32-bit unsigned is defined. */
  predicate Convertible(x: real) {
    -1.0 < x < 4294967296.0
  }

  predicate Integral(x: real) {
    Trunc(x) == x
  }

  function ToUnsigned(x: real): (u: nat)
    requires Convertible(x)
    ensures u < 0x1_0000_0000 && u as real == Trunc(x)
  {
    if x < 0.0 then 0 else x.Floor
  }

  lemma WholeFloor(n: int)
    ensures (n as real).Floor == n
  {
  }

  /** What `Trunc` is: the whole number next to x on the side of zero. */
  lemma TruncIsTowardsZero(x: real)
    ensures Trunc(x).Floor as real == Trunc(x)
    ensures x >= 0.0 ==> 0.0 <= Trunc(x) <= x < Trunc(x) + 1.0
    ensures x <= 0.0 ==> 0.0 >= Trunc(x) >= x > Trunc(x) - 1.0
  {
    var n: int := if x < 0.0 then -((-x).Floor) else x.Floor;
    assert Trunc(x) == n as real;
    hide Trunc;
    WholeFloor(n);
  }

  lemma FloorMonotone(x: real, y: real)
    requires x <= y
    ensures x.Floor <= y.Floor
  {
  }

  lemma TruncMonotone(x: real, y: real)
    requires x <= y
    ensures Trunc(x) <= Trunc(y)
  {
    if x >= 0.0 {
      FloorMonotone(x, y);
    } else if y < 0.0 {
      FloorMonotone(-y, -x);
    } else {
      FloorMonotone(0.0, -x);
      FloorMonotone(0.0, y);
    }
  }

  // ---- What swapping does to the values ----

  function Truncs(s: seq<real>): (r: seq<real>)
    ensures |r| == |s|
    ensures forall i :: 0 <= i < |s| ==> r[i] == Trunc(s[i])
  {
    seq(|s|, i requires 0 <= i < |s| => Trunc(s[i]))
  }

  /** `after` is a permutation of `before` in which some values may have been truncated: the
      truncated values form the same multiset, and no value with a fraction has been gained. */
  ghost predicate TruncatedPermutation(before: seq<real>, after: seq<real>) {
    && |before| == |after|
    && multiset(Truncs(before)) == multiset(Truncs(after))
    && forall x: real :: !Integral(x) ==> multiset(after)[x] <= multiset(before)[x]
  }

  /** `swap(&A[a], &A[b])`, as an update of the sequence. */
  function Swapped(s: seq<real>, a: nat, b: nat): seq<real>
    requires a < |s| && b < |s|
  {
    s[a := s[b]][b := Trunc(s[a])]
  }

  /** The first slot takes the second value as it is, the second slot the first value truncated, also
      when they are the same slot; no other slot changes. */
  lemma SwappedAt(s: seq<real>, a: nat, b: nat)
    requires a < |s| && b < |s|
    ensures |Swapped(s, a, b)| == |s|
    ensures Swapped(s, a, b)[b] == Trunc(s[a]) && (a != b ==> Swapped(s, a, b)[a] == s[b])
    ensures forall k :: 0 <= k < |s| && k != a && k != b ==> Swapped(s, a, b)[k] == s[k]
  {
  }

  lemma TruncIntegral(x: real)
    ensures Integral(Trunc(x))
  {
  }

  lemma TruncsUpdate(s: seq<real>, i: nat, x: real)
    requires i < |s|
    ensures Truncs(s[i := x]) == Truncs(s)[i := Trunc(x)]
  {
  }

  lemma SwapPermutes(s: seq<real>, a: nat, b: nat)
    requires a < |s| && b < |s|
    ensures TruncatedPermutation(s, Swapped(s, a, b))
  {
    var t := Swapped(s, a, b);
    TruncIntegral(s[a]);
    TruncsUpdate(s, a, s[b]);
    TruncsUpdate(s[a := s[b]], b, Trunc(s[a]));
    ExchangeKeepsMultiset(Truncs(s), a, b);
    ExchangeKeepsMultiset(s, a, b);
    var p := s[a := s[b]][b := s[a]];
    assert t == p[b := Trunc(s[a])];
    assert multiset(t) == multiset(p) - multiset{s[a]} + multiset{Trunc(s[a])};
  }

  /** The value in the first slot of a swap passes through the temporary: a fraction is gone for good. */
  lemma SwapLosesFraction(s: seq<real>, a: nat, b: nat)
    requires a < |s| && b < |s| && !Integral(s[a])
    ensures multiset(Swapped(s, a, b))[s[a]] == multiset(s)[s[a]] - 1
  {
  }

  lemma ExchangeKeepsMultiset(s: seq<real>, a: nat, b: nat)
    requires a < |s| && b < |s|
    ensures multiset(s[a := s[b]][b := s[a]]) == multiset(s)
  {
  }

  lemma TruncsConcat(s: seq<real>, t: seq<real>)
    ensures Truncs(s + t) == Truncs(s) + Truncs(t)
  {
  }

  /** Values that agree outside a slice are a truncated permutation inside it. */
  lemma SlicePermutes(before: seq<real>, after: seq<real>, lo: nat, hi: nat)
    requires TruncatedPermutation(before, after)
    requires lo <= hi <= |before|
    requires before[..lo] == after[..lo] && before[hi..] == after[hi..]
    ensures TruncatedPermutation(before[lo..hi], after[lo..hi])
  {
    ThreeParts(before, lo, hi);
    ThreeParts(after, lo, hi);
    CancelEnds(multiset(Truncs(before[..lo])), multiset(Truncs(before[lo..hi])),
               multiset(Truncs(after[lo..hi])), multiset(Truncs(before[hi..])));
  }

  lemma CancelRight(m: multiset<real>, n: multiset<real>, x: real, y: real)
    requires m + multiset{x} == n + multiset{y}
    ensures m == n <==> x == y
  {
    assert m == (m + multiset{x}) - multiset{x};
    assert n == (n + multiset{y}) - multiset{y};
    assert m == n ==> multiset{x} == multiset{y} by {
      assert multiset{x} == (m + multiset{x}) - m;
      assert multiset{y} == (n + multiset{y}) - n;
    }
    assert x in multiset{x};
  }

  lemma CancelEnds(l: multiset<real>, m: multiset<real>, n: multiset<real>, r: multiset<real>)
    requires l + m + r == l + n + r
    ensures m == n
  {
    assert forall x: real :: (l + m + r)[x] == l[x] + m[x] + r[x] && (l + n + r)[x] == l[x] + n[x] + r[x];
  }

  lemma ThreeParts(s: seq<real>, lo: nat, hi: nat)
    requires lo <= hi <= |s|
    ensures multiset(s) == multiset(s[..lo]) + multiset(s[lo..hi]) + multiset(s[hi..])
    ensures multiset(Truncs(s))
         == multiset(Truncs(s[..lo])) + multiset(Truncs(s[lo..hi])) + multiset(Truncs(s[hi..]))
  {
    assert s == s[..lo] + s[lo..hi] + s[hi..];
    TruncsConcat(s[..lo] + s[lo..hi], s[hi..]);
    TruncsConcat(s[..lo], s[lo..hi]);
  }

  /** Every final value is an initial value or an initial value without its fraction. */
  lemma ValueOrigin(before: seq<real>, after: seq<real>, i: nat)
    requires TruncatedPermutation(before, after)
    requires i < |after|
    ensures exists j :: 0 <= j < |before| && (after[i] == before[j] || after[i] == Trunc(before[j]))
  {
    if Integral(after[i]) {
      assert Truncs(after)[i] in multiset(Truncs(before));
      var j :| 0 <= j < |before| && Truncs(before)[j] == Truncs(after)[i];
    } else {
      assert after[i] in multiset(after);
      assert after[i] in multiset(before);
      var j :| 0 <= j < |before| && before[j] == after[i];
    }
  }

  ghost predicate Sorted(s: seq<real>) {
    forall i, j :: 0 <= i < j < |s| ==> s[i] <= s[j]
  }

  // ---- The program ----

  /** `temp` is an `unsigned`; the first store copies exactly, the second stores the temporary. */
  method Swap(A: array<real>, a: nat, b: nat)
    requires a < A.Length && b < A.Length && Convertible(A[a])
    modifies A
    ensures A[..] == Swapped(old(A[..]), a, b)
  {
    var temp: nat := ToUnsigned(A[a]);
    A[a] := A[b];
    A[b] := temp as real;
  }

  /** Between two iterations of the loop in `partition`: slots start..target hold values up to
      the pivot, target..index values from the pivot up, and the pivot waits in the last slot. */
  ghost predicate Partitioning(s: seq<real>, start: nat, end: nat, target: nat, index: nat, pivotVal: real) {
    && start <= target <= index <= end < |s|
    && Integral(pivotVal) && pivotVal >= 0.0 && s[end] == pivotVal
    && (forall k :: start <= k <= end ==> Convertible(s[k]))
    && (forall k :: start <= k < target ==> s[k] <= pivotVal)
    && (forall k :: target <= k < index ==> s[k] >= pivotVal)
  }

  ghost predicate SameOutside(s: seq<real>, t: seq<real>, start: nat, end: nat) {
    |s| == |t| && start <= end < |s| && forall k :: 0 <= k < start || end < k < |s| ==> s[k] == t[k]
  }

  lemma ToUnsignedInRange(x: real)
    requires Convertible(x)
    ensures Convertible(Trunc(x)) && Trunc(x) >= 0.0
  {
  }

  /** One exchange inside the slice leaves everything outside it alone. */
  ghost predicate Rearranged(s: seq<real>, t: seq<real>, start: nat, end: nat) {
    SameOutside(s, t, start, end) && TruncatedPermutation(s, t)
  }

  lemma RearrangedBySwap(s0: seq<real>, s: seq<real>, start: nat, end: nat, a: nat, b: nat)
    requires Rearranged(s0, s, start, end)
    requires start <= a <= end && start <= b <= end
    ensures Rearranged(s0, Swapped(s, a, b), start, end)
  {
    SwapPermutes(s, a, b);
    assert SameOutside(s, Swapped(s, a, b), start, end);
  }

  lemma PartitionStart(s: seq<real>, start: nat, end: nat, pivot: nat)
    requires start <= pivot < end < |s|
    requires forall k :: start <= k <= end ==> Convertible(s[k])
    ensures Partitioning(Swapped(s, pivot, end), start, end, start, start, Trunc(s[pivot]))
  {
  }

  lemma PartitionStep(s: seq<real>, start: nat, end: nat, target: nat, index: nat, pivotVal: real)
    requires Partitioning(s, start, end, target, index, pivotVal) && index < end
    ensures s[index] <= pivotVal ==>
              Partitioning(Swapped(s, target, index), start, end, target + 1, index + 1, pivotVal)
    ensures s[index] > pivotVal ==> Partitioning(s, start, end, target, index + 1, pivotVal)
  {
    ToUnsignedInRange(s[target]);
    if target < index {
      TruncMonotone(pivotVal, s[target]);
    } else if s[index] <= pivotVal {
      TruncMonotone(s[target], pivotVal);
    }
  }

  ghost predicate Partitioned(s: seq<real>, start: nat, end: nat, target: nat) {
    && start <= target <= end < |s|
    && Integral(s[target]) && s[target] >= 0.0
    && (forall k :: start <= k <= end ==> Convertible(s[k]))
    && (forall k :: start <= k < target ==> s[k] <= s[target])
    && (forall k :: target < k <= end ==> s[k] >= s[target])
  }

  lemma PartitionEnd(s: seq<real>, start: nat, end: nat, target: nat, pivotVal: real)
    requires Partitioning(s, start, end, target, end, pivotVal)
    ensures Partitioned(Swapped(s, target, end), start, end, target) && Swapped(s, target, end)[target] == pivotVal
  {
    ToUnsignedInRange(s[target]);
    TruncMonotone(pivotVal, s[target]);
  }

  /** The first pivot sends a fraction through the temporary: the pivot itself, or a fraction that
      moves from the last slot to the first, where the next exchange picks it up. */
  predicate PicksFraction(s: seq<real>, start: nat, end: nat, pivot: nat)
    requires start <= pivot < end < |s|
  {
    !Integral(s[pivot]) || (pivot == start && !Integral(s[end]))
  }

  /** The fraction it sends there, or 0 if there is none. */
  function Picked(s: seq<real>, start: nat, end: nat, pivot: nat): (x: real)
    requires start <= pivot < end < |s|
    ensures Integral(x) <==> !PicksFraction(s, start, end, pivot)
  {
    if !Integral(s[pivot]) then s[pivot] else if pivot == start then s[end] else 0.0
  }

  /** `r` is what is left of `n` when it has been divided by `d`. */
  ghost predicate IsRemainder(n: nat, d: nat, r: nat)
    requires d > 0
  {
    r < d && n / d * d + r == n
  }

  /** There is one remainder, whatever multiple of `d` is taken off. */
  lemma RemainderUnique(n: nat, d: nat, r: nat, q: nat, k: nat)
    requires d > 0 && IsRemainder(n, d, r) && k < d && q * d + k == n
    ensures r == k
  {
    OffsetInjective(d, q, k, n / d, r);
  }

  /** `(rand() % range) + start` */
  function PivotFor(random: nat, start: nat, end: nat): (pivot: nat)
    requires start < end
    ensures start <= pivot < end
    ensures IsRemainder(random, end - start, pivot - start)
  {
    random % (end - start) + start
  }

  ghost predicate Lost(s0: seq<real>, s: seq<real>, x: real) {
    !Integral(x) ==> multiset(s)[x] < multiset(s0)[x]
  }

  /** While a picked fraction is not lost yet, it stands in the first slot, and that is the next one
      to be exchanged. */
  ghost predicate Doomed(s0: seq<real>, s: seq<real>, start: nat, target: nat, x: real) {
    Lost(s0, s, x) || (target == start < |s| && s[start] == x && multiset(s)[x] <= multiset(s0)[x])
  }

  lemma DoomedSwap(s0: seq<real>, s: seq<real>, start: nat, target: nat, b: nat, x: real)
    requires target < |s| && b < |s|
    requires Doomed(s0, s, start, target, x)
    ensures Lost(s0, Swapped(s, target, b), x)
  {
    SwapPermutes(s, target, b);
    if !Integral(s[target]) {
      SwapLosesFraction(s, target, b);
    }
    hide Swapped;
  }

  /** What the first exchange does to the fraction that the pivot picks. */
  lemma PivotSwapDooms(s: seq<real>, start: nat, end: nat, pivot: nat)
    requires start <= pivot < end < |s| && PicksFraction(s, start, end, pivot)
    ensures Doomed(s, Swapped(s, pivot, end), start, start, Picked(s, start, end, pivot))
  {
    SwapPermutes(s, pivot, end);
    if !Integral(s[pivot]) {
      SwapLosesFraction(s, pivot, end);
    }
  }

  /** The state of the loop: `x` is the fraction picked by the first pivot, if any. */
  ghost predicate InLoop(s0: seq<real>, s: seq<real>, start: nat, end: nat, target: nat, index: nat,
                         pivotVal: real, x: real) {
    && Partitioning(s, start, end, target, index, pivotVal)
    && Rearranged(s0, s, start, end)
    && Doomed(s0, s, start, target, x)
  }

  lemma LoopStep(s0: seq<real>, s: seq<real>, start: nat, end: nat, target: nat, index: nat, pivotVal: real, x: real)
    requires InLoop(s0, s, start, end, target, index, pivotVal, x) && index < end
    ensures s[index] <= pivotVal ==>
              InLoop(s0, Swapped(s, target, index), start, end, target + 1, index + 1, pivotVal, x)
    ensures s[index] > pivotVal ==> InLoop(s0, s, start, end, target, index + 1, pivotVal, x)
  {
    PartitionStep(s, start, end, target, index, pivotVal);
    RearrangedBySwap(s0, s, start, end, target, index);
    DoomedSwap(s0, s, start, target, index, x);
  }

  lemma LoopStart(s: seq<real>, start: nat, end: nat, pivot: nat)
    requires start <= pivot < end < |s| && forall k :: start <= k <= end ==> Convertible(s[k])
    ensures InLoop(s, Swapped(s, pivot, end), start, end, start, start, Trunc(s[pivot]), Picked(s, start, end, pivot))
    ensures Trunc(Swapped(s, pivot, end)[end]) == Trunc(s[pivot])
  {
    TruncIntegral(s[pivot]);
    PartitionStart(s, start, end, pivot);
    RearrangedBySwap(s, s, start, end, pivot, end);
    if PicksFraction(s, start, end, pivot) {
      PivotSwapDooms(s, start, end, pivot);
    } else {
      SwapPermutes(s, pivot, end);
    }
  }

  lemma LoopEnd(s0: seq<real>, s: seq<real>, start: nat, end: nat, target: nat, pivotVal: real, x: real)
    requires InLoop(s0, s, start, end, target, end, pivotVal, x)
    ensures var t := Swapped(s, target, end);
            && Partitioned(t, start, end, target) && t[target] == pivotVal
            && Rearranged(s0, t, start, end) && Lost(s0, t, x)
  {
    RearrangedBySwap(s0, s, start, end, target, end);
    PartitionEnd(s, start, end, target, pivotVal);
    DoomedSwap(s0, s, start, target, end, x);
  }

  // ---- `partition` ----

  ghost predicate ConvertibleBetween(s: seq<real>, start: nat, end: nat) {
    start <= end < |s| && forall k :: start <= k <= end ==> Convertible(s[k])
  }

  /** What the loop in `partition` and the exchange after it make of the sequence, and the target
      they end with. */
  function PartitionLoop(s: seq<real>, target: nat, index: nat, end: nat, pivotVal: real): (r: (seq<real>, nat))
    requires target <= index <= end < |s|
    ensures |r.0| == |s| && target <= r.1 <= end
    decreases end - index
  {
    if index == end then (Swapped(s, target, end), target)
    else if s[index] <= pivotVal then PartitionLoop(Swapped(s, target, index), target + 1, index + 1, end, pivotVal)
    else PartitionLoop(s, target, index + 1, end, pivotVal)
  }

  /** `partition`, when `rand` returns `random`. */
  function PartitionOf(s: seq<real>, start: nat, end: nat, random: nat): (r: (seq<real>, nat))
    requires start < end < |s|
    ensures |r.0| == |s| && start <= r.1 <= end
  {
    var s1 := Swapped(s, PivotFor(random, start, end), end);
    PartitionLoop(s1, start, start, end, Trunc(s1[end]))
  }

  lemma {:induction false} LoopFacts(s0: seq<real>, s: seq<real>, start: nat, end: nat, target: nat, index: nat,
                                     pivotVal: real, x: real)
    requires InLoop(s0, s, start, end, target, index, pivotVal, x)
    ensures var (t, q) := PartitionLoop(s, target, index, end, pivotVal);
            && Partitioned(t, start, end, q) && t[q] == pivotVal
            && Rearranged(s0, t, start, end) && Lost(s0, t, x)
    decreases end - index
  {
    hide Trunc, Swapped, Rearranged, Partitioned, Lost, Doomed;
    if index == end {
      LoopEnd(s0, s, start, end, target, pivotVal, x);
    } else {
      LoopStep(s0, s, start, end, target, index, pivotVal, x);
      if s[index] <= pivotVal {
        LoopFacts(s0, Swapped(s, target, index), start, end, target + 1, index + 1, pivotVal, x);
      } else {
        LoopFacts(s0, s, start, end, target, index + 1, pivotVal, x);
      }
    }
  }

  /** Whatever `rand` returns, the slice is split around the truncated pivot, and a fraction that the
      pivot picks is lost. */
  lemma PartitionFacts(s: seq<real>, start: nat, end: nat, random: nat)
    requires start < end && ConvertibleBetween(s, start, end)
    ensures var (t, q) := PartitionOf(s, start, end, random);
            var pivot := PivotFor(random, start, end);
            && Partitioned(t, start, end, q) && t[q] == Trunc(s[pivot])
            && Rearranged(s, t, start, end) && Lost(s, t, Picked(s, start, end, pivot))
  {
    var pivot := PivotFor(random, start, end);
    LoopStart(s, start, end, pivot);
    hide Trunc, Swapped, Rearranged, Partitioned, Lost, Doomed, Picked;
    LoopFacts(s, Swapped(s, pivot, end), start, end, start, start, Trunc(s[pivot]), Picked(s, start, end, pivot));
  }

  /** `random` is what `rand` returns. */
  method Partition(A: array<real>, start: nat, end: nat, random: nat) returns (target: nat)
    requires start < end && ConvertibleBetween(A[..], start, end)
    modifies A
    ensures (A[..], target) == PartitionOf(old(A[..]), start, end, random)
    ensures Partitioned(A[..], start, end, target) && Rearranged(old(A[..]), A[..], start, end)
    ensures A[target] == Trunc(old(A[..])[PivotFor(random, start, end)])
    ensures Lost(old(A[..]), A[..], Picked(old(A[..]), start, end, PivotFor(random, start, end)))
  {
    hide Trunc, Swapped, Rearranged, Partitioned, Lost, Doomed, Picked, IsRemainder;
    ghost var s0 := A[..];
    PartitionFacts(s0, start, end, random);
    var pivot := PivotFor(random, start, end);
    ghost var x := Picked(s0, start, end, pivot);
    LoopStart(s0, start, end, pivot);
    Swap(A, pivot, end);
    var pivotVal: nat := ToUnsigned(A[end]);
    target := start;
    for index := start to end
      invariant InLoop(s0, A[..], start, end, target, index, pivotVal as real, x)
      invariant PartitionLoop(A[..], target, index, end, pivotVal as real) == PartitionOf(s0, start, end, random)
    {
      LoopStep(s0, A[..], start, end, target, index, pivotVal as real, x);
      if A[index] <= pivotVal as real {
        Swap(A, target, index);
        target := target + 1;
      }
    }
    Swap(A, target, end);
  }

  // ---- Recursion ----

  ghost predicate SortedBetween(s: seq<real>, start: nat, end: nat) {
    start <= end < |s| && Sorted(s[start..end + 1])
  }

  lemma RearrangedTwice(s: seq<real>, t: seq<real>, u: seq<real>, start: nat, end: nat)
    requires Rearranged(s, t, start, end) && Rearranged(t, u, start, end)
    ensures Rearranged(s, u, start, end)
  {
  }

  /** The slice itself is a truncated permutation of what it was. */
  lemma SliceOfRearranged(s: seq<real>, t: seq<real>, start: nat, end: nat)
    requires Rearranged(s, t, start, end)
    ensures TruncatedPermutation(s[start..end + 1], t[start..end + 1])
  {
    hide TruncatedPermutation;
    assert s[..start] == t[..start] && s[end + 1..] == t[end + 1..];
    SlicePermutes(s, t, start, end + 1);
  }

  lemma OriginBetween(s: seq<real>, t: seq<real>, lo: nat, hi: nat, k: nat) returns (j: nat)
    requires Rearranged(s, t, lo, hi) && lo <= k <= hi
    ensures lo <= j <= hi && (t[k] == s[j] || t[k] == Trunc(s[j]))
  {
    SliceOfRearranged(s, t, lo, hi);
    var before, after := s[lo..hi + 1], t[lo..hi + 1];
    ValueOrigin(before, after, k - lo);
    var i :| 0 <= i < |before| && (after[k - lo] == before[i] || after[k - lo] == Trunc(before[i]));
    j := lo + i;
  }

  /** Truncation cannot carry a value across an integral, nonnegative pivot. */
  lemma BoundSurvives(s: seq<real>, t: seq<real>, lo: nat, hi: nat, k: nat, p: real)
    requires Rearranged(s, t, lo, hi) && lo <= k <= hi
    requires Integral(p) && p >= 0.0 && ConvertibleBetween(s, lo, hi)
    ensures Convertible(t[k])
    ensures (forall j :: lo <= j <= hi ==> s[j] <= p) ==> t[k] <= p
    ensures (forall j :: lo <= j <= hi ==> s[j] >= p) ==> t[k] >= p
  {
    var j := OriginBetween(s, t, lo, hi, k);
    ToUnsignedInRange(s[j]);
    if p <= s[j] {
      TruncMonotone(p, s[j]);
    } else {
      TruncMonotone(s[j], p);
    }
  }

  /** Rearranging part of a slice rearranges the slice. */
  lemma RearrangedWider(s: seq<real>, t: seq<real>, start: nat, end: nat, lo: nat, hi: nat)
    requires Rearranged(s, t, lo, hi) && start <= lo <= hi <= end < |s|
    ensures Rearranged(s, t, start, end)
  {
  }

  lemma LeftStaysPartitioned(s: seq<real>, t: seq<real>, start: nat, end: nat, pivot: nat)
    requires Partitioned(s, start, end, pivot) && start < pivot
    requires SameOutside(s, t, start, pivot - 1)
    requires ConvertibleBetween(t, start, pivot - 1) && forall k :: start <= k < pivot ==> t[k] <= s[pivot]
    ensures Partitioned(t, start, end, pivot)
  {
  }

  lemma RightStaysPartitioned(s: seq<real>, t: seq<real>, start: nat, end: nat, pivot: nat)
    requires Partitioned(s, start, end, pivot) && pivot < end
    requires SameOutside(s, t, pivot + 1, end)
    requires ConvertibleBetween(t, pivot + 1, end) && forall k :: pivot < k <= end ==> t[k] >= s[pivot]
    ensures Partitioned(t, start, end, pivot)
  {
  }

  lemma SortLeft(s: seq<real>, t: seq<real>, start: nat, end: nat, pivot: nat)
    requires Partitioned(s, start, end, pivot) && start < pivot
    requires Rearranged(s, t, start, pivot - 1)
    ensures Partitioned(t, start, end, pivot)
  {
    forall k | start <= k < pivot
      ensures Convertible(t[k]) && t[k] <= s[pivot]
    {
      BoundSurvives(s, t, start, pivot - 1, k, s[pivot]);
    }
    LeftStaysPartitioned(s, t, start, end, pivot);
  }

  lemma SortRight(s: seq<real>, t: seq<real>, start: nat, end: nat, pivot: nat)
    requires Partitioned(s, start, end, pivot) && pivot < end
    requires Rearranged(s, t, pivot + 1, end)
    ensures Partitioned(t, start, end, pivot)
  {
    forall k | pivot < k <= end
      ensures Convertible(t[k]) && t[k] >= s[pivot]
    {
      BoundSurvives(s, t, pivot + 1, end, k, s[pivot]);
    }
    RightStaysPartitioned(s, t, start, end, pivot);
  }

  lemma SortedJoin(s: seq<real>, start: nat, end: nat, pivot: nat)
    requires Partitioned(s, start, end, pivot)
    requires start < pivot ==> SortedBetween(s, start, pivot - 1)
    requires pivot < end ==> SortedBetween(s, pivot + 1, end)
    ensures SortedBetween(s, start, end)
  {
    forall i, j | start <= i < j <= end
      ensures s[i] <= s[j]
    {
      if j < pivot {
        assert s[start..pivot][i - start] <= s[start..pivot][j - start];
      } else if pivot < i {
        assert s[pivot + 1..end + 1][i - pivot - 1] <= s[pivot + 1..end + 1][j - pivot - 1];
      }
    }
  }

  /** What sorting a slice comes to, if the first call of `rand` returns `random`. */
  ghost predicate Sorts(s: seq<real>, t: seq<real>, start: nat, end: nat, random: nat) {
    && Rearranged(s, t, start, end) && SortedBetween(t, start, end)
    && (start < end ==> Lost(s, t, Picked(s, start, end, PivotFor(random, start, end))))
  }

  /** What `rand` returns in the call that partitions start..end. A run partitions no slice twice, so
      these functions cover all that a sequence of calls can return. */
  type Rand = (nat, nat) -> nat

  /** `quicksort` */
  function QuicksortOf(s: seq<real>, start: nat, end: nat, rand: Rand): (r: seq<real>)
    requires start < end ==> end < |s|
    ensures |r| == |s|
    decreases end - start
  {
    if start >= end then s
    else
      var (s1, pivot) := PartitionOf(s, start, end, rand(start, end));
      var s2 := if pivot > start then QuicksortOf(s1, start, pivot - 1, rand) else s1;
      if pivot < end then QuicksortOf(s2, pivot + 1, end, rand) else s2
  }

  /** After the left recursive call, if there was one. */
  lemma LeftDone(s: seq<real>, t: seq<real>, start: nat, end: nat, pivot: nat, left: nat)
    requires Partitioned(s, start, end, pivot)
    requires if start < pivot then Sorts(s, t, start, pivot - 1, left) else t == s
    ensures Partitioned(t, start, end, pivot) && Rearranged(s, t, start, end)
    ensures start < pivot ==> SortedBetween(t, start, pivot - 1)
    ensures pivot < end ==> ConvertibleBetween(t, pivot + 1, end)
  {
    if start < pivot {
      SortLeft(s, t, start, end, pivot);
      RearrangedWider(s, t, start, end, start, pivot - 1);
    }
  }

  /** Assembles one level of the recursion from its three rearrangements. */
  lemma QuicksortLevel(s0: seq<real>, s1: seq<real>, s2: seq<real>, s3: seq<real>,
                       start: nat, end: nat, pivot: nat, random: nat, right: nat)
    requires Rearranged(s0, s1, start, end) && Partitioned(s2, start, end, pivot)
    requires start < end && Lost(s0, s1, Picked(s0, start, end, PivotFor(random, start, end)))
    requires Rearranged(s1, s2, start, end) && (start < pivot ==> SortedBetween(s2, start, pivot - 1))
    requires if pivot < end then Sorts(s2, s3, pivot + 1, end, right) else s3 == s2
    ensures Sorts(s0, s3, start, end, random) && Rearranged(s1, s3, start, end)
  {
    hide Picked, Lost, Integral, Convertible;
    RearrangedTwice(s0, s1, s2, start, end);
    if pivot < end {
      SortRight(s2, s3, start, end, pivot);
      RearrangedWider(s2, s3, start, end, pivot + 1, end);
      RearrangedTwice(s0, s2, s3, start, end);
      RearrangedTwice(s1, s2, s3, start, end);
      assert s3[start..pivot] == s2[start..pivot];
    }
    SortedJoin(s3, start, end, pivot);
    StaysLost(s0, s1, s2, s3, Picked(s0, start, end, PivotFor(random, start, end)));
  }

  lemma NothingToSort(s: seq<real>, start: nat, random: nat)
    requires start < |s|
    ensures Sorts(s, s, start, start, random)
  {
  }

  /** Whatever `rand` returns, the slice ends sorted, as a truncated permutation of itself. */
  lemma {:induction false} QuicksortSorts(s: seq<real>, start: nat, end: nat, rand: Rand)
    requires ConvertibleBetween(s, start, end)
    ensures Sorts(s, QuicksortOf(s, start, end, rand), start, end, rand(start, end))
    ensures start < end ==>
              Rearranged(PartitionOf(s, start, end, rand(start, end)).0, QuicksortOf(s, start, end, rand), start, end)
    decreases end - start
  {
    hide Rearranged, SortedBetween, Lost, Picked, Convertible, Integral, PartitionOf;
    if start < end {
      var (s1, pivot) := PartitionOf(s, start, end, rand(start, end));
      PartitionFacts(s, start, end, rand(start, end));
      var s2 := if pivot > start then QuicksortOf(s1, start, pivot - 1, rand) else s1;
      if pivot > start {
        QuicksortSorts(s1, start, pivot - 1, rand);
      }
      LeftDone(s1, s2, start, end, pivot, if pivot > start then rand(start, pivot - 1) else 0);
      if pivot < end {
        QuicksortSorts(s2, pivot + 1, end, rand);
      }
      QuicksortLevel(s, s1, s2, QuicksortOf(s, start, end, rand), start, end, pivot, rand(start, end),
                     rand(pivot + 1, end));
    } else {
      NothingToSort(s, start, rand(start, end));
    }
  }

  lemma NoLevel(s: seq<real>, start: nat, end: nat, rand: Rand)
    requires start >= end
    ensures QuicksortOf(s, start, end, rand) == s
  {
  }

  lemma SortLevel(s: seq<real>, start: nat, end: nat, rand: Rand)
    requires start < end < |s|
    ensures var (t, q) := PartitionOf(s, start, end, rand(start, end));
            var u := if q > start then QuicksortOf(t, start, q - 1, rand) else t;
            QuicksortOf(s, start, end, rand) == if q < end then QuicksortOf(u, q + 1, end, rand) else u
  {
    hide PartitionOf;
  }

  lemma PickedMeansChanged(s: seq<real>, t: seq<real>, start: nat, end: nat, random: nat)
    requires start < end && Sorts(s, t, start, end, random)
    ensures PicksFraction(s, start, end, PivotFor(random, start, end)) ==> multiset(t) != multiset(s)
  {
    hide TruncatedPermutation, SortedBetween, PicksFraction, PivotFor;
  }

  method Quicksort(A: array<real>, start: nat, end: nat, rand: Rand)
    requires start < end ==> ConvertibleBetween(A[..], start, end)
    modifies A
    ensures A[..] == QuicksortOf(old(A[..]), start, end, rand)
    ensures start <= end < A.Length ==> Sorts(old(A[..]), A[..], start, end, rand(start, end))
    ensures start < end && PicksFraction(old(A[..]), start, end, PivotFor(rand(start, end), start, end)) ==>
              multiset(A[..]) != multiset(old(A[..]))
    decreases end - start
  {
    hide QuicksortOf, Rearranged, Sorts, Lost, Picked, PicksFraction, PivotFor, Convertible, Integral, PartitionOf;
    ghost var s0 := A[..];
    if start < end {
      QuicksortSorts(s0, start, end, rand);
      SortLevel(s0, start, end, rand);
      PickedMeansChanged(s0, QuicksortOf(s0, start, end, rand), start, end, rand(start, end));
      var pivot := Partition(A, start, end, rand(start, end));
      ghost var s1 := A[..];
      if pivot > start {
        Quicksort(A, start, pivot - 1, rand);
      }
      LeftDone(s1, A[..], start, end, pivot, if pivot > start then rand(start, pivot - 1) else 0);
      if pivot < end {
        Quicksort(A, pivot + 1, end, rand);
      }
    } else {
      NoLevel(s0, start, end, rand);
      if start == end && end < |s0| {
        NothingToSort(s0, start, rand(start, end));
      }
    }
  }

  /** No later rearrangement brings a lost fraction back. */
  lemma StaysLost(s0: seq<real>, s1: seq<real>, s2: seq<real>, s3: seq<real>, x: real)
    requires TruncatedPermutation(s1, s2) && (TruncatedPermutation(s2, s3) || s2 == s3)
    requires Lost(s0, s1, x)
    ensures Lost(s0, s3, x)
  {
  }

  // ---- Whole numbers ----

  ghost predicate AllIntegral(s: seq<real>) {
    forall i :: 0 <= i < |s| ==> Integral(s[i])
  }

  /** On whole numbers nothing is truncated: the result is a permutation. */
  lemma IntegralIsExact(before: seq<real>, after: seq<real>)
    requires TruncatedPermutation(before, after) && AllIntegral(before)
    ensures AllIntegral(after) && multiset(before) == multiset(after)
  {
    forall i | 0 <= i < |after|
      ensures Integral(after[i])
    {
      ValueOrigin(before, after, i);
    }
    assert Truncs(before) == before && Truncs(after) == after;
  }
}
