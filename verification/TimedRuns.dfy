/** The repeated product of user_space/test_programs/timed_parallel_dense_mm.c: every pass adds to the
    same C, and the run times of the passes are summed up in a maximum, a minimum and a mean. What C
    holds is stated for any addition and multiplication, and then for real numbers. */
module TimedRuns {
  import opened Arithmetic
  import opened MatrixMultiply

  // ---- The matrix, for any arithmetic ----

  /** A cell after k passes: each goes on from where the one before it stopped. */
  function Passes<T>(ar: Arith<T>, a: seq<T>, b: seq<T>, n: nat, row: nat, col: nat, k: nat): T
    requires n < SIZE_LIMIT && row < n && col < n && |a| == |b| == n * n
  {
    if k == 0 then ar.zero else Terms(ar, a, b, n, row, col, Passes(ar, a, b, n, row, col, k - 1), n)
  }

  ghost predicate AfterPasses<T(!new)>(ar: Arith<T>, a: seq<T>, b: seq<T>, n: nat, c: seq<T>, k: nat)
    requires n < SIZE_LIMIT && |a| == |b| == n * n
  {
    && |c| == n * n
    && forall row: nat, col: nat | row < n && col < n :: At(c, n, row, col) == Passes(ar, a, b, n, row, col, k)
  }

  lemma NoPass<T(!new)>(ar: Arith<T>, a: seq<T>, b: seq<T>, n: nat, c: seq<T>)
    requires n < SIZE_LIMIT && |a| == |b| == |c| == n * n && IsZero(ar, c)
    ensures AfterPasses(ar, a, b, n, c, 0)
  {
    AllZero(ar, a, b, n, c);
  }

  lemma OnePassMore<T(!new)>(ar: Arith<T>, a: seq<T>, b: seq<T>, n: nat, c: seq<T>, c': seq<T>, k: nat)
    requires n < SIZE_LIMIT && |a| == |b| == n * n
    requires AfterPasses(ar, a, b, n, c, k) && AddsProduct(ar, a, b, n, c, c')
    ensures AfterPasses(ar, a, b, n, c', k + 1)
  {
  }

  /** With one pass the program's own check succeeds, for any arithmetic. */
  lemma OnePassIsProduct<T(!new)>(ar: Arith<T>, a: seq<T>, b: seq<T>, n: nat, c: seq<T>, d: seq<T>)
    requires n < SIZE_LIMIT && |a| == |b| == n * n
    requires AfterPasses(ar, a, b, n, c, 1) && IsProduct(ar, a, b, n, d)
    ensures c == d
  {
    forall row: nat, col: nat | row < n && col < n
      ensures At(c, n, row, col) == Dot(ar, a, b, n, row, col, n)
    {
      assert Passes(ar, a, b, n, row, col, 0) == ar.zero;
    }
    ProductUnique(ar, a, b, n, c, d);
  }

  // ---- The matrix, on real numbers ----

  const REALS: Arith<real> := Arith(0.0, (x: real, y: real) => x + y, (x: real, y: real) => x * y)

  lemma {:induction false} TermsShift(a: seq<real>, b: seq<real>, n: nat, row: nat, col: nat, x: real, k: nat)
    requires n < SIZE_LIMIT && row < n && col < n && k <= n && |a| == |b| == n * n
    ensures Terms(REALS, a, b, n, row, col, x, k) == x + Dot(REALS, a, b, n, row, col, k)
  {
    if k > 0 {
      TermsShift(a, b, n, row, col, x, k - 1);
    }
  }

  lemma OneTimeMore(k: nat, x: real)
    ensures (k + 1) as real * x == k as real * x + x
  {
    assert (k + 1) as real == k as real + 1.0;
  }

  /** After k passes a cell holds k times its product. */
  lemma {:induction false} PassesAreMultiples(a: seq<real>, b: seq<real>, n: nat, row: nat, col: nat, k: nat)
    requires n < SIZE_LIMIT && row < n && col < n && |a| == |b| == n * n
    ensures Passes(REALS, a, b, n, row, col, k) == k as real * Dot(REALS, a, b, n, row, col, n)
  {
    hide Dot, Terms;
    if k > 0 {
      OneTimeMore(k - 1, Dot(REALS, a, b, n, row, col, n));
      PassesAreMultiples(a, b, n, row, col, k - 1);
      TermsShift(a, b, n, row, col, Passes(REALS, a, b, n, row, col, k - 1), n);
    }
  }

  lemma ProductWithItself(y: real, x: real)
    ensures y * x == x <==> y == 1.0 || x == 0.0
  {
  }

  ghost predicate Nonnegative(s: seq<real>) {
    forall i :: 0 <= i < |s| ==> s[i] >= 0.0
  }

  lemma ZeroTerm(sum: real, x: real, y: real)
    requires sum >= 0.0 && x >= 0.0 && y >= 0.0
    ensures sum + x * y >= 0.0 && (sum + x * y == 0.0 <==> sum == 0.0 && (x == 0.0 || y == 0.0))
  {
  }

  lemma DotStep(a: seq<real>, b: seq<real>, n: nat, row: nat, col: nat, k: nat)
    requires n < SIZE_LIMIT && row < n && col < n && k < n && |a| == |b| == n * n
    ensures Dot(REALS, a, b, n, row, col, k + 1)
         == Dot(REALS, a, b, n, row, col, k) + At(a, n, row, k) * At(b, n, k, col)
  {
    TermsStep(REALS, a, b, n, row, col, 0.0, k);
    CellInside(n, row, k);
    CellInside(n, k, col);
  }

  lemma AtNonnegative(s: seq<real>, n: nat, row: nat, col: nat)
    requires n < SIZE_LIMIT && row < n && col < n && |s| == n * n && Nonnegative(s)
    ensures At(s, n, row, col) >= 0.0
  {
    CellInside(n, row, col);
  }

  /** Each of the first k terms has a factor that is zero. */
  ghost predicate TermsVanish(a: seq<real>, b: seq<real>, n: nat, row: nat, col: nat, k: nat)
    requires n < SIZE_LIMIT && row < n && col < n && k <= n && |a| == |b| == n * n
  {
    forall i: nat | i < k :: At(a, n, row, i) == 0.0 || At(b, n, i, col) == 0.0
  }

  lemma NoTerms(a: seq<real>, b: seq<real>, n: nat, row: nat, col: nat)
    requires n < SIZE_LIMIT && row < n && col < n && |a| == |b| == n * n
    ensures Dot(REALS, a, b, n, row, col, 0) == 0.0 && TermsVanish(a, b, n, row, col, 0)
  {
  }

  lemma TermsVanishStep(a: seq<real>, b: seq<real>, n: nat, row: nat, col: nat, k: nat)
    requires n < SIZE_LIMIT && row < n && col < n && k < n && |a| == |b| == n * n
    ensures TermsVanish(a, b, n, row, col, k + 1) <==>
              TermsVanish(a, b, n, row, col, k) && (At(a, n, row, k) == 0.0 || At(b, n, k, col) == 0.0)
  {
    hide At;
  }

  /** A sum of nonnegative terms is zero exactly when each term has a factor that is zero. */
  lemma {:induction false} ZeroSum(a: seq<real>, b: seq<real>, n: nat, row: nat, col: nat, k: nat)
    requires n < SIZE_LIMIT && row < n && col < n && k <= n && |a| == |b| == n * n && Nonnegative(a) && Nonnegative(b)
    ensures Dot(REALS, a, b, n, row, col, k) >= 0.0
    ensures Dot(REALS, a, b, n, row, col, k) == 0.0 <==> TermsVanish(a, b, n, row, col, k)
  {
    hide Dot, At, Nonnegative, TermsVanish;
    if k == 0 {
      NoTerms(a, b, n, row, col);
    } else {
      ZeroSum(a, b, n, row, col, k - 1);
      TermsVanishStep(a, b, n, row, col, k - 1);
      AtNonnegative(a, n, row, k - 1);
      AtNonnegative(b, n, k - 1, col);
      ZeroTerm(Dot(REALS, a, b, n, row, col, k - 1), At(a, n, row, k - 1), At(b, n, k - 1, col));
      DotStep(a, b, n, row, col, k - 1);
    }
  }

  ghost predicate ColumnIsZero(a: seq<real>, n: nat, i: nat)
    requires n < SIZE_LIMIT && i < n && |a| == n * n
  {
    forall row: nat | row < n :: At(a, n, row, i) == 0.0
  }

  ghost predicate RowIsZero(b: seq<real>, n: nat, i: nat)
    requires n < SIZE_LIMIT && i < n && |b| == n * n
  {
    forall col: nat | col < n :: At(b, n, i, col) == 0.0
  }

  /** Every column of A meets a zero row of B, or is zero itself. */
  ghost predicate NothingToAdd(a: seq<real>, b: seq<real>, n: nat)
    requires n < SIZE_LIMIT && |a| == |b| == n * n
  {
    forall i: nat | i < n :: ColumnIsZero(a, n, i) || RowIsZero(b, n, i)
  }

  ghost predicate ProductIsZero(a: seq<real>, b: seq<real>, n: nat)
    requires n < SIZE_LIMIT && |a| == |b| == n * n
  {
    forall row: nat, col: nat | row < n && col < n :: Dot(REALS, a, b, n, row, col, n) == 0.0
  }

  lemma NothingMakesZero(a: seq<real>, b: seq<real>, n: nat, row: nat, col: nat)
    requires n < SIZE_LIMIT && |a| == |b| == n * n && Nonnegative(a) && Nonnegative(b) && row < n && col < n
    requires NothingToAdd(a, b, n)
    ensures Dot(REALS, a, b, n, row, col, n) == 0.0
  {
    ZeroSum(a, b, n, row, col, n);
    hide Dot, At;
    forall i: nat | i < n
      ensures At(a, n, row, i) == 0.0 || At(b, n, i, col) == 0.0
    {
      assert ColumnIsZero(a, n, i) || RowIsZero(b, n, i);
    }
  }

  lemma ZeroMeansNothing(a: seq<real>, b: seq<real>, n: nat, i: nat)
    requires n < SIZE_LIMIT && |a| == |b| == n * n && Nonnegative(a) && Nonnegative(b) && i < n
    requires ProductIsZero(a, b, n)
    ensures ColumnIsZero(a, n, i) || RowIsZero(b, n, i)
  {
    hide Dot, At;
    if !ColumnIsZero(a, n, i) {
      var row: nat :| row < n && At(a, n, row, i) != 0.0;
      forall col: nat | col < n
        ensures At(b, n, i, col) == 0.0
      {
        ZeroSum(a, b, n, row, col, n);
      }
    }
  }

  lemma ZeroProduct(a: seq<real>, b: seq<real>, n: nat)
    requires n < SIZE_LIMIT && |a| == |b| == n * n && Nonnegative(a) && Nonnegative(b)
    ensures NothingToAdd(a, b, n) <==> ProductIsZero(a, b, n)
  {
    hide Dot, Nonnegative, ColumnIsZero, RowIsZero;
    if NothingToAdd(a, b, n) {
      forall row: nat, col: nat | row < n && col < n
        ensures Dot(REALS, a, b, n, row, col, n) == 0.0
      {
        NothingMakesZero(a, b, n, row, col);
      }
    } else if ProductIsZero(a, b, n) {
      forall i: nat | i < n
        ensures ColumnIsZero(a, n, i) || RowIsZero(b, n, i)
      {
        ZeroMeansNothing(a, b, n, i);
      }
    }
  }

  lemma CellAfterPasses(a: seq<real>, b: seq<real>, n: nat, c: seq<real>, d: seq<real>, k: nat, row: nat, col: nat)
    requires n < SIZE_LIMIT && |a| == |b| == n * n && row < n && col < n
    requires AfterPasses(REALS, a, b, n, c, k) && IsProduct(REALS, a, b, n, d)
    ensures At(c, n, row, col) == At(d, n, row, col) <==> k == 1 || Dot(REALS, a, b, n, row, col, n) == 0.0
  {
    hide Dot, Passes;
    PassesAreMultiples(a, b, n, row, col, k);
    ProductWithItself(k as real, Dot(REALS, a, b, n, row, col, n));
  }

  /** The program's own check compares C with one product. After k passes over matrices of nonnegative
      numbers, as `rand` returns them, it succeeds exactly when there was one pass or there is nothing
      to add. */
  lemma CheckAfterPasses(a: seq<real>, b: seq<real>, n: nat, c: seq<real>, d: seq<real>, k: nat)
    requires n < SIZE_LIMIT && |a| == |b| == n * n && Nonnegative(a) && Nonnegative(b)
    requires AfterPasses(REALS, a, b, n, c, k) && IsProduct(REALS, a, b, n, d)
    ensures c == d <==> k == 1 || NothingToAdd(a, b, n)
  {
    assert |c| == |d| == n * n;
    hide Dot, At, Passes, Nonnegative, NothingToAdd, AfterPasses, IsProduct;
    forall row: nat, col: nat | row < n && col < n
      ensures At(c, n, row, col) == At(d, n, row, col) <==> k == 1 || Dot(REALS, a, b, n, row, col, n) == 0.0
    {
      CellAfterPasses(a, b, n, c, d, k, row, col);
    }
    ZeroProduct(a, b, n);
    SameCells(n, c, d);
  }

  lemma SameCells(n: nat, c: seq<real>, d: seq<real>)
    requires n < SIZE_LIMIT && |c| == |d| == n * n
    ensures c == d <==> forall row: nat, col: nat | row < n && col < n :: At(c, n, row, col) == At(d, n, row, col)
  {
    if forall row: nat, col: nat | row < n && col < n :: At(c, n, row, col) == At(d, n, row, col) {
      forall k | 0 <= k < n * n
        ensures c[k] == d[k]
      {
        var row, col := RowAndCol(n, k);
        assert At(c, n, row, col) == At(d, n, row, col);
      }
    }
  }

  // ---- The run times ----

  const SECOND: int := 1_000_000_000
  const LONG_VALUES: int := 0x1_0000_0000_0000_0000
  const LONG_MAX: int := 0x7fff_ffff_ffff_ffff

  function Sum(runs: seq<int>): int {
    if runs == [] then 0 else Sum(runs[..|runs| - 1]) + runs[|runs| - 1]
  }

  lemma {:induction false} SumOfBoth(first: seq<int>, second: seq<int>)
    ensures Sum(first + second) == Sum(first) + Sum(second)
    ensures |second| == 1 ==> Sum(second) == second[0]
  {
    if second == [] {
      assert first + second == first;
    } else {
      var front := second[..|second| - 1];
      assert (first + second)[..|first + second| - 1] == first + front;
      SumOfBoth(first, front);
    }
  }

  /** A difference of two `tv_nsec` fields; it is negative when the second has turned over. */
  predicate RunTime(r: int) {
    -SECOND < r < SECOND
  }

  /** How printf with "%ld" shows an unsigned long. */
  function AsLong(u: nat): int {
    if u <= LONG_MAX then u else u - LONG_VALUES
  }

  /** The mean as computed: an unsigned division of an unsigned sum. */
  function PrintedMean(runs: seq<int>): int
    requires runs != []
  {
    AsLong(Sum(runs) % LONG_VALUES / |runs|)
  }

  lemma {:induction false} SumBounds(runs: seq<int>, lo: int, hi: int)
    requires forall i :: 0 <= i < |runs| ==> lo <= runs[i] <= hi
    ensures |runs| * lo <= Sum(runs) <= |runs| * hi
  {
    if runs != [] {
      SumBounds(runs[..|runs| - 1], lo, hi);
      OneMore(|runs| - 1, lo);
      OneMore(|runs| - 1, hi);
    }
  }

  /** The running maximum, minimum and sum after the runs so far. */
  ghost predicate StatisticsOf(runs: seq<int>, maxns: int, minns: int, sumns: nat) {
    && sumns == Sum(runs) % LONG_VALUES
    && (runs != [] ==> maxns in runs && minns in runs)
    && forall j :: 0 <= j < |runs| ==> minns <= runs[j] <= maxns
  }

  /** What the timed loop does with the time of one run. */
  method RecordRun(ghost runs: seq<int>, runns: int, maxns0: int, minns0: int, sumns0: nat, first: bool)
    returns (maxns: int, minns: int, sumns: nat)
    requires StatisticsOf(runs, maxns0, minns0, sumns0) && (first <==> runs == [])
    ensures StatisticsOf(runs + [runns], maxns, minns, sumns)
  {
    maxns, minns := maxns0, minns0;
    if first {
      maxns := runns;
      minns := runns;
    } else {
      if runns > maxns {
        maxns := runns;
      } else if runns < minns {
        minns := runns;
      }
    }
    sumns := (sumns0 + runns) % LONG_VALUES;
    assert (runs + [runns])[..|runs|] == runs;
    AddModulo(Sum(runs), runns);
    assert runns == (runs + [runns])[|runs|];
    assert forall x :: x in runs ==> x in runs + [runns];
  }

  lemma AddModulo(x: int, y: int)
    ensures (x % LONG_VALUES + y) % LONG_VALUES == (x + y) % LONG_VALUES
  {
  }

  /** The printed mean lies between minimum and maximum exactly when the times add up to no negative
      number or there was one run: otherwise the sum has wrapped around before the division. */
  lemma MeanIsBetween(runs: seq<int>, minns: int, maxns: int)
    requires 0 < |runs| < 0x8000_0000 && forall i :: 0 <= i < |runs| ==> RunTime(runs[i])
    requires minns in runs && maxns in runs && forall i :: 0 <= i < |runs| ==> minns <= runs[i] <= maxns
    ensures minns <= PrintedMean(runs) <= maxns <==> (Sum(runs) >= 0 || |runs| == 1)
    ensures Sum(runs) >= 0 ==> PrintedMean(runs) == Sum(runs) / |runs|
    ensures Sum(runs) < 0 && |runs| > 1 ==> PrintedMean(runs) == (Sum(runs) + LONG_VALUES) / |runs|
    ensures Sum(runs) < 0 && |runs| == 1 ==> PrintedMean(runs) == runs[0]
    ensures minns * |runs| <= Sum(runs) <= maxns * |runs|
  {
    SumBounds(runs, minns, maxns);
    SumBounds(runs, -SECOND, SECOND);
    var k, s := |runs|, Sum(runs);
    if s >= 0 {
      SmallMod(s);
      FloorBetween(s, k, minns, maxns);
    } else if k == 1 {
      assert runs[..0] == [] && s == runs[0];
      assert s % LONG_VALUES == s + LONG_VALUES;
    } else {
      assert s % LONG_VALUES == s + LONG_VALUES;
      WrappedQuotient(s, k);
    }
  }

  lemma SmallMod(s: int)
    requires 0 <= s < LONG_VALUES
    ensures s % LONG_VALUES == s
  {
  }

  lemma QuotientAtLeast(s: int, k: nat, lo: int)
    requires k > 0 && lo * k <= s
    ensures lo <= s / k
  {
    assert s == s / k * k + s % k;
    if s / k < lo {
      MulMonotone(s / k + 1, lo, k);
    }
  }

  lemma QuotientAtMost(s: int, k: nat, hi: int)
    requires k > 0 && s < (hi + 1) * k
    ensures s / k <= hi
  {
    assert s == s / k * k + s % k;
    if hi < s / k {
      MulMonotone(hi + 1, s / k, k);
    }
  }

  lemma FloorBetween(s: int, k: nat, lo: int, hi: int)
    requires k > 0 && k * lo <= s <= k * hi && 0 <= s <= k * SECOND && k < 0x8000_0000
    ensures lo <= s / k <= hi && 0 <= s / k <= LONG_MAX && s < LONG_VALUES
  {
    QuotientAtLeast(s, k, lo);
    QuotientAtLeast(s, k, 0);
    QuotientAtMost(s, k, hi);
    QuotientAtMost(s, k, LONG_MAX);
  }

  lemma WrappedQuotient(s: int, k: nat)
    requires 2 <= k < 0x8000_0000 && -(k * SECOND) <= s < 0
    ensures SECOND < (s + LONG_VALUES) / k <= LONG_MAX
  {
  }

  lemma NoStatistics()
    ensures StatisticsOf([], 0, 0, 0)
  {
  }

  lemma StatisticsAtEnd(runs: seq<int>, maxns: int, minns: int, sumns: nat)
    requires StatisticsOf(runs, maxns, minns, sumns) && runs != []
    ensures maxns in runs && minns in runs && forall i :: 0 <= i < |runs| ==> minns <= runs[i] <= maxns
    ensures AsLong(sumns / |runs|) == PrintedMean(runs)
  {
  }

  /** What is printed. Without a run nothing is: maximum and minimum are indeterminate, and the division
      is by zero or by a negative count; nor is anything after an access outside the matrix. */
  datatype Outcome = Undefined | Statistics(maxns: int, minns: int, mean: int)

  /** The timed loop: one pass over C, which starts at zero, for each of the run times measured. */
  method TimedMultiply<T(!new)>(ar: Arith<T>, A: array<T>, B: array<T>, C: array<T>, n: nat, iterations: int,
                                runs: seq<int>)
    returns (outcome: Outcome)
    requires n <= SIZE_LIMIT && A.Length == B.Length == C.Length == AllocatedCells(n) && A != C && B != C
    requires IsZero(ar, C[..])
    requires |runs| == (if iterations > 0 then iterations else 0) && forall i :: 0 <= i < |runs| ==> RunTime(runs[i])
    modifies C
    ensures outcome == Undefined <==> iterations <= 0 || n == SIZE_LIMIT
    ensures n < SIZE_LIMIT ==> AfterPasses(ar, A[..], B[..], n, C[..], |runs|)
    ensures outcome.Statistics? ==>
              && outcome.maxns in runs && outcome.minns in runs
              && (forall i :: 0 <= i < |runs| ==> outcome.minns <= runs[i] <= outcome.maxns)
              && outcome.mean == PrintedMean(runs)
  {
    hide AfterPasses, AddsProduct, IsProduct, IsZero, SquaredSize, AllocatedCells, RunTime, AsLong, StatisticsOf,
         PrintedMean;
    var sumns: nat, maxns, minns := 0, 0, 0;
    NoStatistics();
    if n < SIZE_LIMIT {
      NoPass(ar, A[..], B[..], n, C[..]);
    }
    for i := 0 to |runs|
      invariant n < SIZE_LIMIT ==> AfterPasses(ar, A[..], B[..], n, C[..], i)
      invariant n == SIZE_LIMIT ==> i == 0
      invariant StatisticsOf(runs[..i], maxns, minns, sumns)
    {
      ghost var c := C[..];
      var outside := SerialMultiplyByColumns(ar, A, B, C, n);
      if outside {
        return Undefined;
      }
      OnePassMore(ar, A[..], B[..], n, c, C[..], i);
      assert runs[..i + 1] == runs[..i] + [runs[i]];
      maxns, minns, sumns := RecordRun(runs[..i], runs[i], maxns, minns, sumns, i == 0);
    }
    if iterations <= 0 {
      return Undefined;
    }
    assert runs[..|runs|] == runs;
    StatisticsAtEnd(runs, maxns, minns, sumns);
    outcome := Statistics(maxns, minns, AsLong(sumns / |runs|));
  }
}
