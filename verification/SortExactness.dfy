/** When the quicksort of sort.c is a permutation: for every value that `rand` can return exactly when
    the slice holds whole numbers only. A slice with a fraction is shown a sequence of random numbers
    that loses one, however long the slice is. */
module SortExactness {
  import opened TruncatingSort

  ghost predicate InRange(rand: Rand) {
    forall a, b :: rand(a, b) <= RAND_MAX
  }

  // ---- One random number for each slice ----

  /** The slices that `quicksort` partitions, in the order of its calls. */
  function Slices(s: seq<real>, start: nat, end: nat, rand: Rand): seq<(nat, nat)>
    requires start < end ==> end < |s|
    decreases end - start
  {
    if start >= end then []
    else
      var (s1, pivot) := PartitionOf(s, start, end, rand(start, end));
      var s2 := if pivot > start then QuicksortOf(s1, start, pivot - 1, rand) else s1;
      [(start, end)] + (if pivot > start then Slices(s1, start, pivot - 1, rand) else [])
                     + (if pivot < end then Slices(s2, pivot + 1, end, rand) else [])
  }

  ghost predicate Inside(calls: seq<(nat, nat)>, lo: int, hi: int) {
    forall i :: 0 <= i < |calls| ==> lo <= calls[i].0 < calls[i].1 <= hi
  }

  ghost predicate NoneTwice(calls: seq<(nat, nat)>) {
    forall i, j :: 0 <= i < j < |calls| ==> calls[i] != calls[j]
  }

  lemma JoinSlices(start: nat, end: nat, left: seq<(nat, nat)>, right: seq<(nat, nat)>, pivot: nat)
    requires start <= pivot <= end && start < end
    requires Inside(left, start, pivot - 1) && NoneTwice(left)
    requires Inside(right, pivot + 1, end) && NoneTwice(right)
    ensures Inside([(start, end)] + left + right, start, end) && NoneTwice([(start, end)] + left + right)
  {
  }

  lemma SlicesLevel(s: seq<real>, start: nat, end: nat, rand: Rand)
    requires start < end < |s|
    ensures var (s1, pivot) := PartitionOf(s, start, end, rand(start, end));
            var s2 := if pivot > start then QuicksortOf(s1, start, pivot - 1, rand) else s1;
            Slices(s, start, end, rand) == [(start, end)]
              + (if pivot > start then Slices(s1, start, pivot - 1, rand) else [])
              + (if pivot < end then Slices(s2, pivot + 1, end, rand) else [])
  {
    hide PartitionOf, QuicksortOf;
  }

  lemma NoSlices(s: seq<real>, start: nat, end: nat, rand: Rand)
    requires start >= end
    ensures Slices(s, start, end, rand) == [] && Inside([], start, end) && NoneTwice([])
  {
  }

  /** No run partitions a slice twice, so a random number for each slice is one for each call. */
  lemma {:induction false} NoSliceTwice(s: seq<real>, start: nat, end: nat, rand: Rand)
    requires start < end ==> end < |s|
    ensures NoneTwice(Slices(s, start, end, rand)) && Inside(Slices(s, start, end, rand), start, end)
    decreases end - start
  {
    hide Slices, PartitionOf, QuicksortOf, Inside, NoneTwice;
    if start >= end {
      NoSlices(s, start, end, rand);
    } else {
      SlicesLevel(s, start, end, rand);
      var (s1, pivot) := PartitionOf(s, start, end, rand(start, end));
      var s2 := if pivot > start then QuicksortOf(s1, start, pivot - 1, rand) else s1;
      var left, right := [], [];
      NothingInside(start, pivot - 1);
      NothingInside(pivot + 1, end);
      if pivot > start {
        left := Slices(s1, start, pivot - 1, rand);
        NoSliceTwice(s1, start, pivot - 1, rand);
      }
      if pivot < end {
        right := Slices(s2, pivot + 1, end, rand);
        NoSliceTwice(s2, pivot + 1, end, rand);
      }
      JoinSlices(start, end, left, right, pivot);
    }
  }

  lemma NothingInside(lo: int, hi: int)
    ensures Inside([], lo, hi) && NoneTwice([])
  {
  }

  // ---- Where the first pivot can look ----

  ghost predicate WholeBetween(s: seq<real>, start: nat, end: nat) {
    start <= end < |s| && forall k :: start <= k <= end ==> Integral(s[k])
  }

  /** The positions at which the first pivot can meet a fraction: those that `rand` reaches, and the
      last slot, which moves to the first when the pivot is there. */
  lemma SomePivotPicksFraction(s: seq<real>, start: nat, end: nat)
    requires start < end < |s|
    ensures (exists random: nat :: random <= RAND_MAX && PicksFraction(s, start, end, PivotFor(random, start, end)))
       <==> exists k :: start <= k <= end && (k - start <= RAND_MAX || k == end) && !Integral(s[k])
  {
    if k :| start <= k <= end && (k - start <= RAND_MAX || k == end) && !Integral(s[k]) {
      var random: nat := if k < end then k - start else 0;
      SmallRandom(random, start, end);
      assert PicksFraction(s, start, end, PivotFor(random, start, end));
    }
    if random: nat :| random <= RAND_MAX && PicksFraction(s, start, end, PivotFor(random, start, end)) {
      PivotReach(random, start, end);
    }
  }

  lemma SmallRandom(random: nat, start: nat, end: nat)
    requires random < end - start
    ensures PivotFor(random, start, end) == start + random
  {
  }

  lemma PivotReach(random: nat, start: nat, end: nat)
    requires start < end
    ensures PivotFor(random, start, end) - start <= random
  {
  }

  // ---- Fractions never come back ----

  lemma {:induction false} LoopGainsNoFraction(s: seq<real>, target: nat, index: nat, end: nat, pivotVal: real, x: real)
    requires target <= index <= end < |s| && !Integral(x)
    ensures multiset(PartitionLoop(s, target, index, end, pivotVal).0)[x] <= multiset(s)[x]
    decreases end - index
  {
    SwapPermutes(s, target, index);
    hide Swapped, Trunc, Integral;
    if index < end {
      if s[index] <= pivotVal {
        LoopGainsNoFraction(Swapped(s, target, index), target + 1, index + 1, end, pivotVal, x);
      } else {
        LoopGainsNoFraction(s, target, index + 1, end, pivotVal, x);
      }
    }
  }

  // ---- How many values the loop finds up to the pivot ----

  function Upto(s: seq<real>, lo: nat, hi: nat, p: real): (c: nat)
    requires lo <= hi <= |s|
    ensures c <= hi - lo
    decreases hi - lo
  {
    if lo == hi then 0 else (if s[lo] <= p then 1 else 0) + Upto(s, lo + 1, hi, p)
  }

  lemma {:induction false} UptoSame(s: seq<real>, t: seq<real>, lo: nat, hi: nat, p: real)
    requires lo <= hi <= |s| == |t| && forall k :: lo <= k < hi ==> s[k] == t[k]
    ensures Upto(s, lo, hi, p) == Upto(t, lo, hi, p)
    decreases hi - lo
  {
    if lo < hi {
      UptoSame(s, t, lo + 1, hi, p);
    }
  }

  /** The pivot ends as many slots from the first as there are values up to it. */
  lemma {:induction false} LoopTarget(s: seq<real>, target: nat, index: nat, end: nat, pivotVal: real)
    requires target <= index <= end < |s|
    ensures PartitionLoop(s, target, index, end, pivotVal).1 == target + Upto(s, index, end, pivotVal)
    decreases end - index
  {
    if index < end {
      if s[index] <= pivotVal {
        LoopTarget(Swapped(s, target, index), target + 1, index + 1, end, pivotVal);
        UptoSame(s, Swapped(s, target, index), index + 1, end, pivotVal);
      } else {
        LoopTarget(s, target, index + 1, end, pivotVal);
      }
    }
  }

  lemma {:induction false} UptoOne(s: seq<real>, lo: nat, hi: nat, p: real, a: nat)
    requires lo <= a < hi <= |s|
    ensures s[a] <= p ==> Upto(s, lo, hi, p) >= 1
    ensures s[a] > p ==> Upto(s, lo, hi, p) <= hi - lo - 1
    decreases hi - lo
  {
    if lo < a {
      UptoOne(s, lo + 1, hi, p, a);
    }
  }

  lemma {:induction false} UptoTwo(s: seq<real>, lo: nat, hi: nat, p: real, a: nat, b: nat)
    requires lo <= a < b < hi <= |s|
    ensures s[a] <= p && s[b] <= p ==> Upto(s, lo, hi, p) >= 2
    ensures s[a] > p && s[b] > p ==> Upto(s, lo, hi, p) <= hi - lo - 2
    decreases hi - lo
  {
    if lo < a {
      UptoTwo(s, lo + 1, hi, p, a, b);
    } else {
      UptoOne(s, lo + 1, hi, p, b);
    }
  }

  // ---- Where a fraction goes that the first pivot does not pick ----

  lemma SelfSwap(s: seq<real>, i: nat, x: real)
    requires i < |s| && !Integral(x)
    ensures |Swapped(s, i, i)| == |s| && forall j :: 0 <= j < |s| && j != i ==> Swapped(s, i, i)[j] == s[j]
    ensures multiset(Swapped(s, i, i))[x] <= multiset(s)[x]
  {
    SwapPermutes(s, i, i);
  }

  /** A fraction that alone exceeds the pivot is in the way of the next exchange. */
  lemma {:induction false} AloneAboveIsLost(s: seq<real>, index: nat, end: nat, pivotVal: real, k: nat)
    requires index <= k < end < |s| && !Integral(s[k]) && s[k] > pivotVal
    requires forall j :: index <= j < end && j != k ==> s[j] <= pivotVal
    ensures multiset(PartitionLoop(s, index, index, end, pivotVal).0)[s[k]] < multiset(s)[s[k]]
    decreases end - index
  {
    hide Swapped, Trunc, Integral;
    var x := s[k];
    if index < k {
      SelfSwap(s, index, x);
      AloneAboveIsLost(Swapped(s, index, index), index + 1, end, pivotVal, k);
    } else {
      assert PartitionLoop(s, k, k, end, pivotVal) == PartitionLoop(s, k, k + 1, end, pivotVal);
      SwapLosesFraction(s, k, k + 1);
      if k + 1 < end {
        LoopGainsNoFraction(Swapped(s, k, k + 1), k + 1, k + 2, end, pivotVal, x);
      }
    }
  }

  /** Outside the slice nothing changes, so the slice makes all the difference. */
  lemma SliceDecides(s: seq<real>, t: seq<real>, start: nat, end: nat) returns (outside: multiset<real>)
    requires SameOutside(s, t, start, end)
    ensures multiset(s) == outside + multiset(s[start..end + 1])
    ensures multiset(t) == outside + multiset(t[start..end + 1])
  {
    assert |s| == |t| && start <= end < |s|;
    outside := multiset(s[..start]) + multiset(s[end + 1..]);
    SameEnds(s, t, start, end);
    hide SameOutside;
    ThreeBags(s, start, end + 1);
    ThreeBags(t, start, end + 1);
  }

  lemma SameEnds(s: seq<real>, t: seq<real>, start: nat, end: nat)
    requires SameOutside(s, t, start, end)
    ensures s[..start] == t[..start] && s[end + 1..] == t[end + 1..]
  {
  }

  lemma ThreeBags(s: seq<real>, lo: nat, hi: nat)
    requires lo <= hi <= |s|
    ensures multiset(s) == multiset(s[..lo]) + multiset(s[hi..]) + multiset(s[lo..hi])
  {
    assert s == s[..lo] + s[lo..hi] + s[hi..];
  }

  /** A fraction still in the sequence after the slice was rearranged is still in the slice. */
  lemma FractionStaysInside(s: seq<real>, t: seq<real>, start: nat, end: nat, k: nat) returns (j: nat)
    requires SameOutside(s, t, start, end) && start <= k <= end && multiset(t)[s[k]] >= multiset(s)[s[k]]
    ensures start <= j <= end && t[j] == s[k]
  {
    var x := s[k];
    var outside := SliceDecides(s, t, start, end);
    var before, after := s[start..end + 1], t[start..end + 1];
    assert before[k - start] == x;
    assert x in multiset(after);
    var i :| 0 <= i < |after| && after[i] == x;
    j := start + i;
  }

  /** Nothing stands in the first two slots or the last that a first pivot could pick. */
  ghost predicate Unpicked(s: seq<real>, start: nat, end: nat) {
    && start + 2 < end && ConvertibleBetween(s, start, end)
    && Integral(s[start]) && Integral(s[start + 1]) && Integral(s[end])
  }

  /** The larger of the first two values as the first pivot: a fraction further on is lost at once, or
      goes to a part that it does not have for itself. */
  function Larger(s: seq<real>, start: nat): (random: nat)
    requires start + 1 < |s|
    ensures random <= 1
  {
    if s[start] >= s[start + 1] then 0 else 1
  }

  /** Where the fraction `x` stands after the first partition, unless it is lost. */
  ghost predicate GoesOn(s: seq<real>, start: nat, end: nat, q: nat, j: nat, x: real) {
    && start <= j <= end < |s| && s[j] == x
    && ((j < q && start + 2 <= q) || (q < j && q + 2 <= end))
  }

  lemma PartSizes(s: seq<real>, start: nat, end: nat, k: nat)
    requires Unpicked(s, start, end) && start + 2 <= k < end && !Integral(s[k])
    ensures var pivot := start + Larger(s, start);
            var (t, q) := PartitionOf(s, start, end, Larger(s, start));
            && (s[k] <= s[pivot] ==> start + 2 <= q)
            && (s[k] > s[pivot] ==> q + 2 <= end || multiset(t)[s[k]] < multiset(s)[s[k]])
  {
    var random := Larger(s, start);
    SmallRandom(random, start, end);
    var pivot, other := start + random, start + 1 - random;
    var s1 := Swapped(s, pivot, end);
    SwapPermutes(s, pivot, end);
    TruncIntegral(s[pivot]);
    var p := s[pivot];
    assert s1[end] == p && s1[other] == s[other] <= p && s1[k] == s[k];
    LoopTarget(s1, start, start, end, p);
    if s[k] <= p {
      UptoTwo(s1, start, end, p, other, k);
    } else if j :| start <= j < end && j != k && s1[j] > p {
      UptoTwo(s1, start, end, p, if j < k then j else k, if j < k then k else j);
    } else {
      AloneAboveIsLost(s1, start, end, p, k);
    }
  }

  lemma FractionGoesOn(s: seq<real>, start: nat, end: nat, k: nat) returns (j: nat)
    requires Unpicked(s, start, end) && start + 2 <= k < end && !Integral(s[k])
    ensures var (t, q) := PartitionOf(s, start, end, Larger(s, start));
            multiset(t)[s[k]] < multiset(s)[s[k]] || GoesOn(t, start, end, q, j, s[k])
  {
    var random := Larger(s, start);
    var (t, q) := PartitionOf(s, start, end, random);
    SmallRandom(random, start, end);
    PartitionFacts(s, start, end, random);
    PartSizes(s, start, end, k);
    j := start;
    if multiset(t)[s[k]] >= multiset(s)[s[k]] {
      j := FractionStaysInside(s, t, start, end, k);
    }
  }

  // ---- Putting random numbers together ----

  lemma {:induction false} SameRandom(s: seq<real>, start: nat, end: nat, rand: Rand, rand': Rand)
    requires start < end ==> end < |s|
    requires forall a: nat, b: nat :: start <= a <= b <= end ==> rand(a, b) == rand'(a, b)
    ensures QuicksortOf(s, start, end, rand) == QuicksortOf(s, start, end, rand')
    decreases end - start
  {
    hide PartitionOf;
    if start < end {
      var (s1, pivot) := PartitionOf(s, start, end, rand(start, end));
      if pivot > start {
        SameRandom(s1, start, pivot - 1, rand, rand');
      }
      var s2 := if pivot > start then QuicksortOf(s1, start, pivot - 1, rand) else s1;
      if pivot < end {
        SameRandom(s2, pivot + 1, end, rand, rand');
      }
    }
  }

  /** First `random`, then `left` up to slot `q`, then `right`. */
  function Combine(start: nat, end: nat, random: nat, q: nat, left: Rand, right: Rand): Rand {
    (a: nat, b: nat) => if a == start && b == end then random else if a <= q then left(a, b) else right(a, b)
  }

  /** `rand` makes the sort lose an occurrence of the fraction `y`. */
  ghost predicate Loses(s: seq<real>, start: nat, end: nat, rand: Rand, y: real)
    requires start < end ==> end < |s|
  {
    InRange(rand) && !Integral(y) && multiset(QuicksortOf(s, start, end, rand))[y] < multiset(s)[y]
  }

  lemma PickedIsLost(s: seq<real>, start: nat, end: nat, random: nat) returns (rand: Rand, y: real)
    requires start < end && ConvertibleBetween(s, start, end) && random <= RAND_MAX
    requires PicksFraction(s, start, end, PivotFor(random, start, end))
    ensures Loses(s, start, end, rand, y)
  {
    rand, y := (a, b) => random, Picked(s, start, end, PivotFor(random, start, end));
    QuicksortSorts(s, start, end, rand);
  }

  lemma LostAtOnce(s: seq<real>, start: nat, end: nat, random: nat, y: real) returns (rand: Rand)
    requires start < end && ConvertibleBetween(s, start, end) && random <= RAND_MAX && !Integral(y)
    requires multiset(PartitionOf(s, start, end, random).0)[y] < multiset(s)[y]
    ensures Loses(s, start, end, rand, y)
  {
    rand := (a, b) => random;
    QuicksortSorts(s, start, end, rand);
  }

  /** A fraction lost on the way stays lost. */
  lemma LossStays(s: seq<real>, t: seq<real>, u: seq<real>, r: seq<real>, y: real)
    requires TruncatedPermutation(s, t) && (TruncatedPermutation(t, u) || t == u)
    requires TruncatedPermutation(u, r) || u == r
    requires !Integral(y) && (multiset(u)[y] < multiset(t)[y] || multiset(r)[y] < multiset(u)[y])
    ensures multiset(r)[y] < multiset(s)[y]
  {
  }

  /** The three stages of one level of the sort. */
  lemma Stages(s: seq<real>, start: nat, end: nat, rand: Rand, t: seq<real>, q: nat, u: seq<real>)
    requires start < end && ConvertibleBetween(s, start, end) && (t, q) == PartitionOf(s, start, end, rand(start, end))
    requires u == if q > start then QuicksortOf(t, start, q - 1, rand) else t
    ensures var r := QuicksortOf(s, start, end, rand);
            && r == (if q < end then QuicksortOf(u, q + 1, end, rand) else u)
            && TruncatedPermutation(s, t) && (TruncatedPermutation(t, u) || t == u)
            && (TruncatedPermutation(u, r) || u == r)
  {
    hide QuicksortOf, PartitionOf, Picked, PivotFor, Lost, TruncatedPermutation, Trunc, Integral, Convertible,
         SortedBetween, SameOutside;
    SortLevel(s, start, end, rand);
    PartitionFacts(s, start, end, rand(start, end));
    if q > start {
      QuicksortSorts(t, start, q - 1, rand);
    }
    LeftDone(t, u, start, end, q, if q > start then rand(start, q - 1) else 0);
    if q < end {
      QuicksortSorts(u, q + 1, end, rand);
    }
  }

  lemma LostOnTheLeft(s: seq<real>, start: nat, end: nat, random: nat, left: Rand, y: real) returns (rand: Rand)
    requires start < end && ConvertibleBetween(s, start, end) && random <= RAND_MAX
    requires var (t, q) := PartitionOf(s, start, end, random); q > start && Loses(t, start, q - 1, left, y)
    ensures Loses(s, start, end, rand, y)
  {
    hide QuicksortOf, PartitionOf, TruncatedPermutation, Integral, Convertible;
    var (t, q) := PartitionOf(s, start, end, random);
    rand := Combine(start, end, random, q, left, left);
    SameRandom(t, start, q - 1, rand, left);
    var u := QuicksortOf(t, start, q - 1, rand);
    Stages(s, start, end, rand, t, q, u);
    LossStays(s, t, u, QuicksortOf(s, start, end, rand), y);
  }

  lemma LostOnTheRight(s: seq<real>, start: nat, end: nat, random: nat, left: Rand, u: seq<real>, right: Rand, y: real)
    returns (rand: Rand)
    requires start < end && ConvertibleBetween(s, start, end) && random <= RAND_MAX && InRange(left)
    requires var (t, q) := PartitionOf(s, start, end, random);
             && q < end && u == (if q > start then QuicksortOf(t, start, q - 1, left) else t)
             && Loses(u, q + 1, end, right, y)
    ensures Loses(s, start, end, rand, y)
  {
    hide QuicksortOf, PartitionOf, TruncatedPermutation, Integral, Convertible;
    var (t, q) := PartitionOf(s, start, end, random);
    rand := Combine(start, end, random, q, left, right);
    SameRandom(u, q + 1, end, rand, right);
    if q > start {
      SameRandom(t, start, q - 1, rand, left);
    }
    Stages(s, start, end, rand, t, q, u);
    LossStays(s, t, u, QuicksortOf(s, start, end, rand), y);
  }

  /** Wherever in the slice a fraction stands, some random numbers lose a fraction. */
  lemma {:induction false} SomeRandomLoses(s: seq<real>, start: nat, end: nat, k: nat) returns (rand: Rand, y: real)
    requires start < end && ConvertibleBetween(s, start, end) && start <= k <= end && !Integral(s[k])
    ensures Loses(s, start, end, rand, y)
    decreases end - start
  {
    if !Integral(s[start]) || !Integral(s[end]) {
      SmallRandom(0, start, end);
      rand, y := PickedIsLost(s, start, end, 0);
    } else if !Integral(s[start + 1]) {
      SmallRandom(1, start, end);
      rand, y := PickedIsLost(s, start, end, 1);
    } else {
      rand, y := LaterFractionIsLost(s, start, end, k);
    }
  }

  /** Sorting the left part touches nothing from the pivot on. */
  lemma LeftPart(s: seq<real>, start: nat, end: nat, q: nat, rand: Rand) returns (t: seq<real>)
    requires Partitioned(s, start, end, q)
    ensures t == (if q > start then QuicksortOf(s, start, q - 1, rand) else s)
    ensures |t| == |s| && forall k :: q <= k <= end ==> t[k] == s[k]
    ensures q < end ==> ConvertibleBetween(t, q + 1, end)
  {
    hide QuicksortOf, PartitionOf, TruncatedPermutation, Lost, Picked, SortedBetween, Integral, Convertible;
    t := if q > start then QuicksortOf(s, start, q - 1, rand) else s;
    if q > start {
      QuicksortSorts(s, start, q - 1, rand);
    }
    LeftDone(s, t, start, end, q, if q > start then rand(start, q - 1) else 0);
  }

  lemma {:induction false} LaterFractionIsLost(s: seq<real>, start: nat, end: nat, k: nat) returns (rand: Rand, y: real)
    requires Unpicked(s, start, end) && start + 2 <= k < end && !Integral(s[k])
    ensures Loses(s, start, end, rand, y)
    decreases end - start, 0
  {
    hide QuicksortOf, PartitionOf, Loses, Picked, Lost, Trunc, Convertible, TruncatedPermutation, Rearranged;
    var random := Larger(s, start);
    var (t, q) := PartitionOf(s, start, end, random);
    var j := FractionGoesOn(s, start, end, k);
    PartitionFacts(s, start, end, random);
    y := s[k];
    if multiset(t)[y] < multiset(s)[y] {
      rand := LostAtOnce(s, start, end, random, y);
    } else if j < q {
      var left;
      left, y := SomeRandomLoses(t, start, q - 1, j);
      rand := LostOnTheLeft(s, start, end, random, left, y);
    } else {
      var zero: Rand := (a, b) => 0;
      var u := LeftPart(t, start, end, q, zero);
      var right;
      right, y := SomeRandomLoses(u, q + 1, end, j);
      rand := LostOnTheRight(s, start, end, random, zero, u, right, y);
    }
  }

  // ---- The exact condition ----

  /** A slice of whole numbers is permuted. */
  lemma WholeSliceIsPermuted(s: seq<real>, t: seq<real>, start: nat, end: nat)
    requires Rearranged(s, t, start, end) && WholeBetween(s, start, end)
    ensures multiset(s) == multiset(t) && WholeBetween(t, start, end)
  {
    SliceOfRearranged(s, t, start, end);
    hide TruncatedPermutation, Integral;
    var before, after := s[start..end + 1], t[start..end + 1];
    IntegralIsExact(before, after);
    assert forall k :: start <= k <= end ==> t[k] == after[k - start];
    var outside := SliceDecides(s, t, start, end);
  }

  /** The sort is a permutation for everything that `rand` can return if and only if there is nothing
      to sort or the slice holds whole numbers only. */
  lemma SortIsExact(s: seq<real>, start: nat, end: nat)
    requires ConvertibleBetween(s, start, end)
    ensures (forall rand: Rand :: InRange(rand) ==> multiset(QuicksortOf(s, start, end, rand)) == multiset(s))
       <==> start == end || WholeBetween(s, start, end)
  {
    if WholeBetween(s, start, end) {
      forall rand: Rand | InRange(rand)
        ensures multiset(QuicksortOf(s, start, end, rand)) == multiset(s)
      {
        QuicksortSorts(s, start, end, rand);
        WholeSliceIsPermuted(s, QuicksortOf(s, start, end, rand), start, end);
      }
    } else if start < end {
      var k :| start <= k <= end && !Integral(s[k]);
      var rand, y := SomeRandomLoses(s, start, end, k);
      assert InRange(rand) && multiset(QuicksortOf(s, start, end, rand)) != multiset(s);
    }
  }
}
