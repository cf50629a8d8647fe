/** The dense matrix products of user_space/test_programs: dense_mm.c (rows outermost, one thread)
    and parallel_dense_mm.c (columns handed out to OpenMP threads). Addition and multiplication are
    arbitrary functions, with no law assumed of them, so the results hold for rounded arithmetic. */
module MatrixMultiply {
  import opened Arithmetic

  const UINT_VALUES: int := 0x1_0000_0000
  const SIZE_LIMIT: nat := 65536

  datatype Arith<!T> = Arith(zero: T, add: (T, T) -> T, mul: (T, T) -> T)

  // ---- Index arithmetic in 32-bit unsigned ----

  /** `matrix_size * matrix_size` */
  function SquaredSize(n: nat): nat {
    n * n % UINT_VALUES
  }

  /** `row*matrix_size + col` */
  function Cell(n: nat, row: nat, col: nat): nat {
    (row * n + col) % UINT_VALUES
  }

  lemma CellInside(n: nat, row: nat, col: nat)
    requires n < SIZE_LIMIT && row < n && col < n
    ensures Cell(n, row, col) == row * n + col < n * n == SquaredSize(n)
  {
    OffsetBound(n, n, row, col);
    MulMonotone(n, 65535, n);
    MulMonotone(n, 65535, 65535);
    NoWrap(row * n + col);
    NoWrap(n * n);
  }

  lemma NoWrap(x: nat)
    requires x < UINT_VALUES
    ensures x % UINT_VALUES == x
  {
  }

  lemma CellInjective(n: nat, row: nat, col: nat, row': nat, col': nat)
    requires n < SIZE_LIMIT && row < n && col < n && row' < n && col' < n
    ensures Cell(n, row, col) == Cell(n, row', col') ==> row == row' && col == col'
  {
    CellInside(n, row, col);
    CellInside(n, row', col');
    if row < row' {
      MulMonotone(row + 1, row', n);
    } else if row' < row {
      MulMonotone(row' + 1, row, n);
    }
  }

  lemma CellSurjective(n: nat, k: nat)
    requires n < SIZE_LIMIT && k < n * n
    ensures n > 0 && k / n < n && k % n < n && Cell(n, k / n, k % n) == k
  {
    DivModInside(n, n, k);
    CellInside(n, k / n, k % n);
  }

  lemma RowAndCol(n: nat, k: nat) returns (row: nat, col: nat)
    requires n < SIZE_LIMIT && k < n * n
    ensures row < n && col < n && Cell(n, row, col) == k
  {
    CellSurjective(n, k);
    row, col := k / n, k % n;
  }

  /** The size check lets 65536 through, where the allocation wraps to nothing. Every smaller size
      keeps all indices inside the matrix, so the check is right for all sizes but that one. */
  lemma SizeCheckExact(n: nat)
    requires n <= SIZE_LIMIT
    ensures (forall row: nat, col: nat | row < n && col < n :: Cell(n, row, col) < SquaredSize(n)) <==> n < SIZE_LIMIT
    ensures SquaredSize(SIZE_LIMIT) == 0
  {
    if n < SIZE_LIMIT {
      forall row: nat, col: nat | row < n && col < n
        ensures Cell(n, row, col) < SquaredSize(n)
      {
        CellInside(n, row, col);
      }
    } else {
      assert Cell(n, 0, 0) == 0 == SquaredSize(n);
    }
  }

  /** The cells that the programs allocate for a size that passes their check. */
  function AllocatedCells(n: nat): (cells: nat)
    requires n <= SIZE_LIMIT
    ensures cells == if n < SIZE_LIMIT then n * n else 0
  {
    if n > 0 && n < SIZE_LIMIT then
      CellInside(n, 0, 0);
      SquaredSize(n)
    else SquaredSize(n)
  }

  /** The first access of the loops, to row 0 and column 0 or, in another thread, another column, lies
      outside an allocation of `cells` cells. Such an access is undefined, and the run ends there. */
  predicate StartsOutside(n: nat, cells: nat) {
    n > 0 && Cell(n, 0, 0) >= cells
  }

  lemma OnlyTheLargestStartsOutside(n: nat)
    requires n <= SIZE_LIMIT
    ensures StartsOutside(n, AllocatedCells(n)) <==> n == SIZE_LIMIT
  {
    if 0 < n < SIZE_LIMIT {
      CellInside(n, 0, 0);
    }
  }

  // ---- What the product is ----

  /** `x` and then the first k terms of a cell, in the order the programs add them. */
  function Terms<T>(ar: Arith<T>, a: seq<T>, b: seq<T>, n: nat, row: nat, col: nat, x: T, k: nat): T
    requires n < SIZE_LIMIT && row < n && col < n && k <= n && |a| == |b| == n * n
  {
    if k == 0 then x
    else
      CellInside(n, row, k - 1);
      CellInside(n, k - 1, col);
      ar.add(Terms(ar, a, b, n, row, col, x, k - 1), ar.mul(a[Cell(n, row, k - 1)], b[Cell(n, k - 1, col)]))
  }

  /** Term k is what row `row` of A and column `col` of B hold at place k, and it is added last. */
  lemma TermsStep<T>(ar: Arith<T>, a: seq<T>, b: seq<T>, n: nat, row: nat, col: nat, x: T, k: nat)
    requires n < SIZE_LIMIT && row < n && col < n && k < n && |a| == |b| == n * n
    ensures 0 <= row * n + k < n * n && 0 <= k * n + col < n * n
    ensures Terms(ar, a, b, n, row, col, x, 0) == x
    ensures Terms(ar, a, b, n, row, col, x, k + 1)
         == ar.add(Terms(ar, a, b, n, row, col, x, k), ar.mul(a[row * n + k], b[k * n + col]))
  {
    CellInside(n, row, k);
    CellInside(n, k, col);
  }

  /** The sum of the first k terms of a cell. */
  function Dot<T>(ar: Arith<T>, a: seq<T>, b: seq<T>, n: nat, row: nat, col: nat, k: nat): T
    requires n < SIZE_LIMIT && row < n && col < n && k <= n && |a| == |b| == n * n
  {
    Terms(ar, a, b, n, row, col, ar.zero, k)
  }

  function At<T>(c: seq<T>, n: nat, row: nat, col: nat): T
    requires n < SIZE_LIMIT && row < n && col < n && |c| == n * n
  {
    CellInside(n, row, col);
    c[Cell(n, row, col)]
  }

  lemma AtUpdate<T>(c: seq<T>, n: nat, row: nat, col: nat, x: T, row': nat, col': nat)
    requires n < SIZE_LIMIT && row < n && col < n && row' < n && col' < n && |c| == n * n
    requires Cell(n, row, col) < |c|
    ensures At(c[Cell(n, row, col) := x], n, row', col')
         == if row' == row && col' == col then x else At(c, n, row', col')
  {
    CellInjective(n, row, col, row', col');
    CellInside(n, row', col');
  }

  ghost predicate IsProduct<T(!new)>(ar: Arith<T>, a: seq<T>, b: seq<T>, n: nat, c: seq<T>)
    requires n < SIZE_LIMIT && |a| == |b| == n * n
  {
    && |c| == n * n
    && forall row: nat, col: nat | row < n && col < n :: At(c, n, row, col) == Dot(ar, a, b, n, row, col, n)
  }

  /** `c` is `c0` with the terms of the product added to every cell. */
  ghost predicate AddsProduct<T(!new)>(ar: Arith<T>, a: seq<T>, b: seq<T>, n: nat, c0: seq<T>, c: seq<T>)
    requires n < SIZE_LIMIT && |a| == |b| == |c0| == n * n
  {
    && |c| == n * n
    && forall row: nat, col: nat | row < n && col < n ::
         At(c, n, row, col) == Terms(ar, a, b, n, row, col, At(c0, n, row, col), n)
  }

  ghost predicate IsZero<T(!new)>(ar: Arith<T>, c: seq<T>) {
    forall k :: 0 <= k < |c| ==> c[k] == ar.zero
  }

  lemma AddedToZero<T(!new)>(ar: Arith<T>, a: seq<T>, b: seq<T>, n: nat, c0: seq<T>, c: seq<T>)
    requires n < SIZE_LIMIT && |a| == |b| == |c0| == n * n && IsZero(ar, c0) && AddsProduct(ar, a, b, n, c0, c)
    ensures IsProduct(ar, a, b, n, c)
  {
    AllZero(ar, a, b, n, c0);
  }

  /** There is one product: two computations of it agree in every cell. */
  lemma ProductUnique<T(!new)>(ar: Arith<T>, a: seq<T>, b: seq<T>, n: nat, c: seq<T>, d: seq<T>)
    requires n < SIZE_LIMIT && |a| == |b| == n * n
    requires IsProduct(ar, a, b, n, c) && IsProduct(ar, a, b, n, d)
    ensures c == d
  {
    forall k | 0 <= k < n * n
      ensures c[k] == d[k]
    {
      var row, col := RowAndCol(n, k);
      assert At(c, n, row, col) == At(d, n, row, col);
    }
  }

  // ---- The serial programs ----

  /** How many terms of cell (row, col) a serial loop nest has added to `c0` when it stands at term
      `index` of cell (r, c), where `before` says which cells come before that one. */
  ghost predicate Partial<T(!new)>(ar: Arith<T>, a: seq<T>, b: seq<T>, n: nat, c0: seq<T>, s: seq<T>,
                                   before: (nat, nat) -> bool, r: nat, c: nat, index: nat)
    requires n < SIZE_LIMIT && |a| == |b| == |c0| == n * n && index <= n
  {
    && |s| == n * n
    && forall row: nat, col: nat | row < n && col < n ::
         At(s, n, row, col) == Terms(ar, a, b, n, row, col, At(c0, n, row, col),
                                     if row == r && col == c then index else if before(row, col) then n else 0)
  }

  /** `C[row*n + col] += A[row*n + index] * B[index*n + col]` */
  method Accumulate<T(!new)>(ar: Arith<T>, A: array<T>, B: array<T>, C: array<T>, n: nat, row: nat, col: nat,
                             index: nat, ghost c0: seq<T>, ghost before: (nat, nat) -> bool)
    requires n < SIZE_LIMIT && A.Length == B.Length == C.Length == |c0| == n * n && A != C && B != C
    requires row < n && col < n && index < n
    requires Partial(ar, A[..], B[..], n, c0, C[..], before, row, col, index)
    modifies C
    ensures Partial(ar, A[..], B[..], n, c0, C[..], before, row, col, index + 1)
  {
    CellInside(n, row, col);
    CellInside(n, row, index);
    CellInside(n, index, col);
    ghost var c := C[..];
    assert At(c, n, row, col) == Terms(ar, A[..], B[..], n, row, col, At(c0, n, row, col), index);
    C[Cell(n, row, col)] := ar.add(C[Cell(n, row, col)], ar.mul(A[Cell(n, row, index)], B[Cell(n, index, col)]));
    assert C[..] == c[Cell(n, row, col) := C[Cell(n, row, col)]];
    forall row': nat, col': nat | row' < n && col' < n
      ensures At(C[..], n, row', col')
           == if row' == row && col' == col then C[Cell(n, row, col)] else At(c, n, row', col')
    {
      AtUpdate(c, n, row, col, C[Cell(n, row, col)], row', col');
    }
  }

  /** The loop nest of dense_mm.c. It adds to C, which the program has set to zero. */
  method SerialMultiply<T(!new)>(ar: Arith<T>, A: array<T>, B: array<T>, C: array<T>, n: nat)
    returns (outside: bool)
    requires n <= SIZE_LIMIT && A.Length == B.Length == C.Length == AllocatedCells(n) && A != C && B != C
    modifies C
    ensures outside <==> n == SIZE_LIMIT
    ensures !outside ==> AddsProduct(ar, A[..], B[..], n, old(C[..]), C[..])
    ensures !outside && IsZero(ar, old(C[..])) ==> IsProduct(ar, A[..], B[..], n, C[..])
  {
    OnlyTheLargestStartsOutside(n);
    outside := StartsOutside(n, C.Length);
    if outside {
      return;
    }
    ghost var c0 := C[..];
    for row := 0 to n
      invariant Partial(ar, A[..], B[..], n, c0, C[..], (r, c) => r < row, n, n, 0)
    {
      for col := 0 to n
        invariant Partial(ar, A[..], B[..], n, c0, C[..], (r, c) => r < row || (r == row && c < col), n, n, 0)
      {
        ghost var before := (r, c) => r < row || (r == row && c < col);
        for index := 0 to n
          invariant Partial(ar, A[..], B[..], n, c0, C[..], before, row, col, index)
        {
          Accumulate(ar, A, B, C, n, row, col, index, c0, before);
        }
      }
    }
    if IsZero(ar, c0) {
      AddedToZero(ar, A[..], B[..], n, c0, C[..]);
    }
  }

  lemma AllZero<T(!new)>(ar: Arith<T>, a: seq<T>, b: seq<T>, n: nat, c: seq<T>)
    requires n < SIZE_LIMIT && |a| == |b| == |c| == n * n && IsZero(ar, c)
    ensures forall row: nat, col: nat | row < n && col < n ::
              At(c, n, row, col) == Dot(ar, a, b, n, row, col, 0) == ar.zero
  {
    forall row: nat, col: nat | row < n && col < n
      ensures At(c, n, row, col) == Dot(ar, a, b, n, row, col, 0) == ar.zero
    {
      CellInside(n, row, col);
    }
  }

  /** The loop nest of parallel_dense_mm.c, columns outermost, in one thread: its check under
      VERIFY_PARALLEL, and every pass of timed_parallel_dense_mm.c. */
  method SerialMultiplyByColumns<T(!new)>(ar: Arith<T>, A: array<T>, B: array<T>, D: array<T>, n: nat)
    returns (outside: bool)
    requires n <= SIZE_LIMIT && A.Length == B.Length == D.Length == AllocatedCells(n) && A != D && B != D
    modifies D
    ensures outside <==> n == SIZE_LIMIT
    ensures !outside ==> AddsProduct(ar, A[..], B[..], n, old(D[..]), D[..])
    ensures !outside && IsZero(ar, old(D[..])) ==> IsProduct(ar, A[..], B[..], n, D[..])
  {
    OnlyTheLargestStartsOutside(n);
    outside := StartsOutside(n, D.Length);
    if outside {
      return;
    }
    ghost var d0 := D[..];
    for col := 0 to n
      invariant Partial(ar, A[..], B[..], n, d0, D[..], (r, c) => c < col, n, n, 0)
    {
      for row := 0 to n
        invariant Partial(ar, A[..], B[..], n, d0, D[..], (r, c) => c < col || (c == col && r < row), n, n, 0)
      {
        ghost var before := (r, c) => c < col || (c == col && r < row);
        for index := 0 to n
          invariant Partial(ar, A[..], B[..], n, d0, D[..], before, row, col, index)
        {
          Accumulate(ar, A, B, D, n, row, col, index, d0, before);
        }
      }
    }
    if IsZero(ar, d0) {
      AddedToZero(ar, A[..], B[..], n, d0, D[..]);
    }
  }
}
