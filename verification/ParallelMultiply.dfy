/** The OpenMP loop of user_space/test_programs/parallel_dense_mm.c as threads that take single
    steps. Columns are handed out in any order to any thread, and each `C[..] += A[..] * B[..]` is
    a load, a computation and a store between which every other thread may run. */
module ParallelMultiply {
  import opened Arithmetic
  import opened MatrixMultiply

  datatype Problem<!T> = Problem(ar: Arith<T>, a: seq<T>, b: seq<T>, n: nat) {
    predicate Valid() {
      n < SIZE_LIMIT && |a| == |b| == n * n
    }
  }

  datatype Phase<T> = Load | Compute(acc: T) | Store(value: T)

  /** A thread is looking for a column, or is inside the two inner loops with private row and index. */
  datatype Thread<T> = Idle | Running(col: nat, row: nat, index: nat, phase: Phase<T>)

  datatype State<T> = State(c: seq<T>, threads: seq<Thread<T>>, unclaimed: set<nat>)

  datatype Move = Claim(t: nat, col: nat) | Access(t: nat)

  predicate InLoops<T>(n: nat, th: Thread<T>) {
    th.Running? ==> th.col < n && th.row < n && th.index < n
  }

  predicate WellFormed<T>(p: Problem<T>, s: State<T>) {
    && p.Valid() && |s.c| == p.n * p.n
    && (forall t :: 0 <= t < |s.threads| ==> InLoops(p.n, s.threads[t]))
    && forall col :: col in s.unclaimed ==> col < p.n
  }

  predicate Enabled<T>(s: State<T>, m: Move) {
    m.t < |s.threads| && (m.Claim? == s.threads[m.t].Idle?) && (m.Claim? ==> m.col in s.unclaimed)
  }

  /** The loop counters after a store: next term, next row, or done with the column. */
  function Advance<T>(n: nat, th: Thread<T>): Thread<T>
    requires th.Running?
  {
    if th.index + 1 < n then Running(th.col, th.row, th.index + 1, Load)
    else if th.row + 1 < n then Running(th.col, th.row + 1, 0, Load)
    else Idle
  }

  function Next<T>(p: Problem<T>, s: State<T>, m: Move): State<T>
    requires WellFormed(p, s) && Enabled(s, m)
  {
    match m
    case Claim(t, col) =>
      s.(threads := s.threads[t := Running(col, 0, 0, Load)], unclaimed := s.unclaimed - {col})
    case Access(t) =>
      var th := s.threads[t];
      CellInside(p.n, th.row, th.col);
      CellInside(p.n, th.row, th.index);
      CellInside(p.n, th.index, th.col);
      match th.phase
      case Load =>
        s.(threads := s.threads[t := th.(phase := Compute(s.c[Cell(p.n, th.row, th.col)]))])
      case Compute(acc) =>
        var sum := p.ar.add(acc, p.ar.mul(p.a[Cell(p.n, th.row, th.index)], p.b[Cell(p.n, th.index, th.col)]));
        s.(threads := s.threads[t := th.(phase := Store(sum))])
      case Store(value) =>
        s.(c := s.c[Cell(p.n, th.row, th.col) := value], threads := s.threads[t := Advance(p.n, th)])
  }

  // ---- The invariant: every cell is a partial sum of the serial product ----

  function Sum<T>(p: Problem<T>, row: nat, col: nat, k: nat): T
    requires p.Valid() && row < p.n && col < p.n && k <= p.n
  {
    Dot(p.ar, p.a, p.b, p.n, row, col, k)
  }

  /** What row `r` of column `col` holds while the loops stand at term `k` of row `row`. */
  function Wanted<T>(p: Problem<T>, col: nat, row: nat, k: nat): nat -> T
    requires p.Valid() && col < p.n && k <= p.n
  {
    (r: nat) =>
      if r >= p.n then p.ar.zero
      else if r < row then Sum(p, r, col, p.n)
      else if r == row then Sum(p, r, col, k)
      else Sum(p, r, col, 0)
  }

  ghost predicate ColumnIs<T(!new)>(n: nat, c: seq<T>, col: nat, wanted: nat -> T)
    requires n < SIZE_LIMIT && |c| == n * n && col < n
  {
    forall r: nat | r < n :: At(c, n, r, col) == wanted(r)
  }

  /** The column has `k` terms in row `row`, all terms above it and none below. */
  ghost predicate ColumnAt<T(!new)>(p: Problem<T>, c: seq<T>, col: nat, row: nat, k: nat)
    requires p.Valid() && |c| == p.n * p.n && col < p.n && k <= p.n
  {
    ColumnIs(p.n, c, col, Wanted(p, col, row, k))
  }

  ghost predicate ThreadOk<T(!new)>(p: Problem<T>, c: seq<T>, th: Thread<T>)
    requires p.Valid() && |c| == p.n * p.n && InLoops(p.n, th)
  {
    th.Running? ==>
      && ColumnAt(p, c, th.col, th.row, th.index)
      && (th.phase.Compute? ==> th.phase.acc == Sum(p, th.row, th.col, th.index))
      && (th.phase.Store? ==> th.phase.value == Sum(p, th.row, th.col, th.index + 1))
  }

  ghost predicate IsClaimed<T>(s: State<T>, col: nat) {
    exists t :: 0 <= t < |s.threads| && s.threads[t].Running? && s.threads[t].col == col
  }

  ghost predicate Inv<T(!new)>(p: Problem<T>, s: State<T>) {
    && WellFormed(p, s)
    && (forall t :: 0 <= t < |s.threads| ==> ThreadOk(p, s.c, s.threads[t]))
    && (forall t :: 0 <= t < |s.threads| && s.threads[t].Running? ==> s.threads[t].col !in s.unclaimed)
    && (forall t, u :: 0 <= t < u < |s.threads| && s.threads[t].Running? && s.threads[u].Running?
          ==> s.threads[t].col != s.threads[u].col)
    && (forall col :: col in s.unclaimed ==> ColumnAt(p, s.c, col, 0, 0))
    && (forall col: nat :: col < p.n && col !in s.unclaimed && !IsClaimed(s, col) ==> ColumnAt(p, s.c, col, p.n, 0))
  }

  lemma StoreKeepsOtherColumns<T(!new)>(n: nat, c: seq<T>, row: nat, col: nat, x: T, col': nat, wanted: nat -> T)
    requires n < SIZE_LIMIT && |c| == n * n && row < n && col < n && col' < n && col != col'
    requires Cell(n, row, col) < |c|
    requires ColumnIs(n, c, col', wanted)
    ensures ColumnIs(n, c[Cell(n, row, col) := x], col', wanted)
  {
    forall r: nat | r < n
      ensures At(c[Cell(n, row, col) := x], n, r, col') == At(c, n, r, col')
    {
      AtUpdate(c, n, row, col, x, r, col');
    }
  }

  lemma StoreInColumn<T(!new)>(n: nat, c: seq<T>, row: nat, col: nat, x: T, wanted: nat -> T, wanted': nat -> T)
    requires n < SIZE_LIMIT && |c| == n * n && row < n && col < n
    requires Cell(n, row, col) < |c|
    requires ColumnIs(n, c, col, wanted)
    requires wanted'(row) == x && forall r: nat | r < n && r != row :: wanted'(r) == wanted(r)
    ensures ColumnIs(n, c[Cell(n, row, col) := x], col, wanted')
  {
    forall r: nat | r < n
      ensures At(c[Cell(n, row, col) := x], n, r, col) == wanted'(r)
    {
      AtUpdate(c, n, row, col, x, r, col);
    }
  }

  /** Storing the next partial sum moves the column on to where the loop counters go. */
  lemma StoreAdvancesColumn<T(!new)>(p: Problem<T>, c: seq<T>, row: nat, col: nat, index: nat)
    requires p.Valid() && |c| == p.n * p.n && row < p.n && col < p.n && index < p.n
    requires ColumnAt(p, c, col, row, index) && Cell(p.n, row, col) < |c|
    ensures var c' := c[Cell(p.n, row, col) := Sum(p, row, col, index + 1)];
            && (index + 1 < p.n ==> ColumnAt(p, c', col, row, index + 1))
            && (index + 1 == p.n ==> ColumnAt(p, c', col, row + 1, 0))
            && (index + 1 == p.n && row + 1 == p.n ==> ColumnAt(p, c', col, p.n, 0))
  {
    var x := Sum(p, row, col, index + 1);
    var wanted := Wanted(p, col, row, index);
    if index + 1 < p.n {
      StoreInColumn(p.n, c, row, col, x, wanted, Wanted(p, col, row, index + 1));
    } else {
      StoreInColumn(p.n, c, row, col, x, wanted, Wanted(p, col, row + 1, 0));
    }
  }

  /** When one thread changes, only the column it was in can lose its claim. */
  lemma ClaimsKept<T>(s: State<T>, s': State<T>, t: nat, col: nat)
    requires t < |s.threads| == |s'.threads| && s'.threads == s.threads[t := s'.threads[t]]
    requires IsClaimed(s, col)
    ensures IsClaimed(s', col) || (s.threads[t].Running? && s.threads[t].col == col)
  {
    var u :| 0 <= u < |s.threads| && s.threads[u].Running? && s.threads[u].col == col;
    if u != t {
      assert s'.threads[u] == s.threads[u];
    }
  }

  lemma ClaimInv<T(!new)>(p: Problem<T>, s: State<T>, m: Move)
    requires Inv(p, s) && Enabled(s, m) && m.Claim?
    ensures Inv(p, Next(p, s, m))
  {
    var s' := Next(p, s, m);
    assert IsClaimed(s', m.col) by {
      assert s'.threads[m.t].col == m.col;
    }
    forall col: nat | IsClaimed(s, col)
      ensures IsClaimed(s', col)
    {
      ClaimsKept(s, s', m.t, col);
    }
  }

  lemma RegisterInv<T(!new)>(p: Problem<T>, s: State<T>, m: Move)
    requires Inv(p, s) && Enabled(s, m) && m.Access? && !s.threads[m.t].phase.Store?
    ensures Inv(p, Next(p, s, m))
  {
    var s' := Next(p, s, m);
    var th := s.threads[m.t];
    assert At(s.c, p.n, th.row, th.col) == Wanted(p, th.col, th.row, th.index)(th.row);
    assert IsClaimed(s', th.col) by {
      assert s'.threads[m.t].Running? && s'.threads[m.t].col == th.col;
    }
    forall col: nat | IsClaimed(s, col)
      ensures IsClaimed(s', col)
    {
      ClaimsKept(s, s', m.t, col);
    }
  }

  /** The store of thread `t` and what it leaves behind. */
  ghost predicate Stores<T(!new)>(p: Problem<T>, s: State<T>, t: nat, s': State<T>) {
    && Inv(p, s) && t < |s.threads| && s.threads[t].Running? && s.threads[t].phase.Store?
    && Cell(p.n, s.threads[t].row, s.threads[t].col) < |s.c| == |s'.c|
    && s'.c == s.c[Cell(p.n, s.threads[t].row, s.threads[t].col) := s.threads[t].phase.value]
    && s'.threads == s.threads[t := Advance(p.n, s.threads[t])]
    && s'.unclaimed == s.unclaimed
  }

  lemma StoreThreadsOk<T(!new)>(p: Problem<T>, s: State<T>, t: nat, s': State<T>, u: nat)
    requires Stores(p, s, t, s') && u < |s'.threads|
    ensures InLoops(p.n, s'.threads[u]) && ThreadOk(p, s'.c, s'.threads[u])
  {
    var th := s.threads[t];
    if u == t {
      StoreAdvancesColumn(p, s.c, th.row, th.col, th.index);
    } else if s.threads[u].Running? {
      var o := s.threads[u];
      assert o.col != th.col;
      StoreKeepsOtherColumns(p.n, s.c, th.row, th.col, th.phase.value, o.col, Wanted(p, o.col, o.row, o.index));
    }
  }

  lemma StoreKeepsUnclaimed<T(!new)>(p: Problem<T>, s: State<T>, t: nat, s': State<T>, col: nat)
    requires Stores(p, s, t, s') && col in s'.unclaimed
    ensures ColumnAt(p, s'.c, col, 0, 0)
  {
    var th := s.threads[t];
    StoreKeepsOtherColumns(p.n, s.c, th.row, th.col, th.phase.value, col, Wanted(p, col, 0, 0));
  }

  lemma StoreFinishes<T(!new)>(p: Problem<T>, s: State<T>, t: nat, s': State<T>, col: nat)
    requires Stores(p, s, t, s') && col < p.n && col !in s'.unclaimed && !IsClaimed(s', col)
    ensures ColumnAt(p, s'.c, col, p.n, 0)
  {
    var th := s.threads[t];
    if col == th.col {
      assert s'.threads[t] == Advance(p.n, th);
      StoreAdvancesColumn(p, s.c, th.row, th.col, th.index);
    } else {
      if IsClaimed(s, col) {
        ClaimsKept(s, s', t, col);
      }
      StoreKeepsOtherColumns(p.n, s.c, th.row, th.col, th.phase.value, col, Wanted(p, col, p.n, 0));
    }
  }

  lemma StoreInv<T(!new)>(p: Problem<T>, s: State<T>, t: nat, s': State<T>)
    requires Stores(p, s, t, s')
    ensures Inv(p, s')
  {
    forall u: nat | u < |s'.threads|
      ensures InLoops(p.n, s'.threads[u]) && ThreadOk(p, s'.c, s'.threads[u])
    {
      StoreThreadsOk(p, s, t, s', u);
    }
    forall col | col in s'.unclaimed
      ensures ColumnAt(p, s'.c, col, 0, 0)
    {
      StoreKeepsUnclaimed(p, s, t, s', col);
    }
    forall col: nat | col < p.n && col !in s'.unclaimed && !IsClaimed(s', col)
      ensures ColumnAt(p, s'.c, col, p.n, 0)
    {
      StoreFinishes(p, s, t, s', col);
    }
  }

  lemma NextInv<T(!new)>(p: Problem<T>, s: State<T>, m: Move)
    requires Inv(p, s) && Enabled(s, m)
    ensures Inv(p, Next(p, s, m))
  {
    if m.Claim? {
      ClaimInv(p, s, m);
    } else if s.threads[m.t].phase.Store? {
      CellInside(p.n, s.threads[m.t].row, s.threads[m.t].col);
      StoreInv(p, s, m.t, Next(p, s, m));
    } else {
      RegisterInv(p, s, m);
    }
  }

  // ---- Work left: every move does one unit of it ----

  /** Terms a thread at (row, index) still has to add to its column. */
  function TermsLeft(n: nat, row: nat, index: nat): (k: nat)
    requires row < n && index < n
    ensures k >= 1
  {
    MulMonotone(0, n - 1 - row, n);
    (n - 1 - row) * n + (n - index)
  }

  /** Moves thread `th` still has to make for its column. */
  function ThreadWork<T>(n: nat, th: Thread<T>): nat
    requires InLoops(n, th)
  {
    if th.Idle? then 0
    else 3 * TermsLeft(n, th.row, th.index) - (match th.phase case Load => 0 case Compute(_) => 1 case Store(_) => 2)
  }

  function ThreadsWork<T>(n: nat, threads: seq<Thread<T>>): nat
    requires forall t :: 0 <= t < |threads| ==> InLoops(n, threads[t])
  {
    if threads == [] then 0
    else ThreadsWork(n, threads[..|threads| - 1]) + ThreadWork(n, threads[|threads| - 1])
  }

  /** Moves needed for one column: the claim, then three accesses for each of n * n terms. */
  function ColumnWork(n: nat): nat {
    3 * (n * n) + 1
  }

  function Work<T>(p: Problem<T>, s: State<T>): nat
    requires WellFormed(p, s)
  {
    ThreadsWork(p.n, s.threads) + |s.unclaimed| * ColumnWork(p.n)
  }

  lemma {:induction false} ThreadsWorkUpdate<T>(n: nat, threads: seq<Thread<T>>, t: nat, th: Thread<T>)
    requires forall u :: 0 <= u < |threads| ==> InLoops(n, threads[u])
    requires t < |threads| && InLoops(n, th)
    ensures ThreadsWork(n, threads[t := th]) == ThreadsWork(n, threads) - ThreadWork(n, threads[t]) + ThreadWork(n, th)
  {
    var last := |threads| - 1;
    if t == last {
      assert threads[t := th][..last] == threads[..last];
    } else {
      assert threads[t := th][..last] == threads[..last][t := th];
      ThreadsWorkUpdate(n, threads[..last], t, th);
    }
  }

  lemma AdvanceWork<T>(n: nat, th: Thread<T>)
    requires th.Running? && InLoops(n, th) && th.phase.Store?
    ensures InLoops(n, Advance(n, th)) && ThreadWork(n, Advance(n, th)) == ThreadWork(n, th) - 1
  {
    if th.index + 1 == n && th.row + 1 < n {
      assert (n - 1 - th.row) * n == (n - 1 - (th.row + 1)) * n + n;
    }
  }

  lemma OneFewer(k: nat, w: nat)
    requires k > 0
    ensures (k - 1) * w + w == k * w
  {
  }

  lemma WholeColumn(n: nat)
    requires n > 0
    ensures TermsLeft(n, 0, 0) == n * n
  {
  }

  lemma NextThread<T>(p: Problem<T>, s: State<T>, m: Move)
    requires WellFormed(p, s) && Enabled(s, m)
    ensures var s' := Next(p, s, m); |s'.threads| == |s.threads| && s'.threads == s.threads[m.t := s'.threads[m.t]]
    ensures m.Claim? ==> Next(p, s, m).threads[m.t] == Running(m.col, 0, 0, Load)
    ensures m.Access? && s.threads[m.t].phase.Store? ==> Next(p, s, m).threads[m.t] == Advance(p.n, s.threads[m.t])
    ensures m.Access? && !s.threads[m.t].phase.Store? ==>
              var th, th' := s.threads[m.t], Next(p, s, m).threads[m.t];
              && th'.Running? && th'.col == th.col && th'.row == th.row && th'.index == th.index
              && (th.phase.Load? ==> th'.phase.Compute?)
              && (th.phase.Compute? ==> th'.phase.Store?)
    ensures Next(p, s, m).unclaimed == if m.Claim? then s.unclaimed - {m.col} else s.unclaimed
  {
  }

  lemma NextSize<T>(p: Problem<T>, s: State<T>, m: Move)
    requires WellFormed(p, s) && Enabled(s, m)
    ensures |Next(p, s, m).c| == |s.c|
  {
    if m.Access? {
      CellInside(p.n, s.threads[m.t].row, s.threads[m.t].col);
    }
  }

  lemma NextWellFormed<T>(p: Problem<T>, s: State<T>, m: Move)
    requires WellFormed(p, s) && Enabled(s, m)
    ensures WellFormed(p, Next(p, s, m))
  {
    NextThread(p, s, m);
    NextSize(p, s, m);
    if m.Access? && s.threads[m.t].phase.Store? {
      AdvanceWork(p.n, s.threads[m.t]);
    }
    var s' := Next(p, s, m);
    forall t: nat | t < |s'.threads|
      ensures InLoops(p.n, s'.threads[t])
    {
      assert t != m.t ==> s'.threads[t] == s.threads[t];
    }
  }

  lemma MoveDoesOneUnit<T>(p: Problem<T>, s: State<T>, m: Move)
    requires WellFormed(p, s) && Enabled(s, m)
    ensures WellFormed(p, Next(p, s, m)) && Work(p, Next(p, s, m)) == Work(p, s) - 1
  {
    var s' := Next(p, s, m);
    NextWellFormed(p, s, m);
    NextThread(p, s, m);
    ThreadsWorkUpdate(p.n, s.threads, m.t, s'.threads[m.t]);
    if m.Claim? {
      assert |s.unclaimed| > 0;
      OneFewer(|s.unclaimed|, ColumnWork(p.n));
      WholeColumn(p.n);
    } else if s.threads[m.t].phase.Store? {
      AdvanceWork(p.n, s.threads[m.t]);
    }
  }

  // ---- Whole runs ----

  function Columns(n: nat): (cols: set<nat>)
    ensures |cols| == n && forall col: nat :: col in cols <==> col < n
  {
    if n == 0 then {} else Columns(n - 1) + {n - 1}
  }

  function Initial<T>(p: Problem<T>, k: nat): State<T>
  {
    State(seq(p.n * p.n, _ => p.ar.zero), seq(k, _ => Idle), Columns(p.n))
  }

  lemma InitialInv<T(!new)>(p: Problem<T>, c: seq<T>, k: nat)
    requires p.Valid() && |c| == p.n * p.n && forall i :: 0 <= i < |c| ==> c[i] == p.ar.zero
    ensures Inv(p, State(c, seq(k, _ => Idle), Columns(p.n)))
    ensures Work(p, State(c, seq(k, _ => Idle), Columns(p.n))) == p.n * ColumnWork(p.n)
  {
    AllZero(p.ar, p.a, p.b, p.n, c);
    var threads: seq<Thread<T>> := seq(k, _ => Idle);
    assert forall t :: 0 <= t < k ==> threads[t] == Idle;
    IdleHasNoWork(p.n, threads);
  }

  lemma {:induction false} IdleHasNoWork<T>(n: nat, threads: seq<Thread<T>>)
    requires forall t :: 0 <= t < |threads| ==> threads[t] == Idle
    ensures ThreadsWork(n, threads) == 0
  {
    if threads != [] {
      IdleHasNoWork(n, threads[..|threads| - 1]);
    }
  }

  /** `moves` is an interleaving: each move is possible where it is made, and the last leads to `e`. */
  ghost predicate Run<T(!new)>(p: Problem<T>, s: State<T>, moves: seq<Move>, e: State<T>) {
    if moves == [] then s == e
    else
      var m := moves[|moves| - 1];
      exists before: State<T> ::
        && Run(p, s, moves[..|moves| - 1], before)
        && WellFormed(p, before) && Enabled(before, m) && Next(p, before, m) == e
  }

  ghost predicate Finished<T>(s: State<T>) {
    s.unclaimed == {} && forall t :: 0 <= t < |s.threads| ==> s.threads[t].Idle?
  }

  lemma {:induction false} RunInv<T(!new)>(p: Problem<T>, k: nat, moves: seq<Move>, e: State<T>)
    requires p.Valid() && Run(p, Initial(p, k), moves, e)
    ensures Inv(p, e) && |e.threads| == k && |moves| + Work(p, e) == p.n * ColumnWork(p.n)
  {
    if moves == [] {
      InitialInv(p, Initial(p, k).c, k);
    } else {
      var m := moves[|moves| - 1];
      var before: State<T> :|
        && Run(p, Initial(p, k), moves[..|moves| - 1], before)
        && WellFormed(p, before) && Enabled(before, m) && Next(p, before, m) == e;
      RunInv(p, k, moves[..|moves| - 1], before);
      NextInv(p, before, m);
      MoveDoesOneUnit(p, before, m);
    }
  }

  lemma FinishedIsProduct<T(!new)>(p: Problem<T>, s: State<T>)
    requires Inv(p, s) && Finished(s)
    ensures IsProduct(p.ar, p.a, p.b, p.n, s.c)
  {
    forall row: nat, col: nat | row < p.n && col < p.n
      ensures At(s.c, p.n, row, col) == Dot(p.ar, p.a, p.b, p.n, row, col, p.n)
    {
      assert !IsClaimed(s, col);
      assert ColumnAt(p, s.c, col, p.n, 0);
    }
  }

  /** No interleaving gets stuck before it has finished. */
  lemma Progress<T(!new)>(s: State<T>)
    requires |s.threads| > 0 && !Finished(s)
    ensures exists m :: Enabled(s, m)
  {
    if t: nat :| t < |s.threads| && s.threads[t].Running? {
      assert Enabled(s, Access(t));
    } else {
      var col :| col in s.unclaimed;
      assert Enabled(s, Claim(0, col));
    }
  }

  lemma FinishedMeansNoWork<T(!new)>(p: Problem<T>, s: State<T>)
    requires WellFormed(p, s) && |s.threads| > 0
    ensures (forall m :: !Enabled(s, m)) <==> Work(p, s) == 0
    ensures Work(p, s) == 0 ==> Finished(s)
  {
    if Finished(s) {
      IdleHasNoWork(p.n, s.threads);
      assert forall m :: !Enabled(s, m);
    } else {
      Progress(s);
      var m :| Enabled(s, m);
      MoveDoesOneUnit(p, s, m);
    }
  }

  /** Every interleaving of every assignment of columns to threads makes at most
      n * (3 * n * n + 1) moves; it can go on until then, and then it has the serial product. */
  lemma EveryInterleavingIsSerial<T(!new)>(p: Problem<T>, k: nat, moves: seq<Move>, e: State<T>, serial: seq<T>)
    requires p.Valid() && k > 0 && Run(p, Initial(p, k), moves, e)
    requires IsProduct(p.ar, p.a, p.b, p.n, serial)
    ensures |moves| <= p.n * ColumnWork(p.n)
    ensures (forall m :: !Enabled(e, m)) <==> |moves| == p.n * ColumnWork(p.n)
    ensures |moves| == p.n * ColumnWork(p.n) ==> e.c == serial
  {
    RunInv(p, k, moves, e);
    FinishedMeansNoWork(p, e);
    if |moves| == p.n * ColumnWork(p.n) {
      FinishedIsProduct(p, e);
      ProductUnique(p.ar, p.a, p.b, p.n, e.c, serial);
    }
  }

  // ---- The team of threads at work on the array C ----

  class Team<T(!new)> {
    const ar: Arith<T>
    const n: nat
    const A: array<T>
    const B: array<T>
    const C: array<T>
    var threads: seq<Thread<T>>
    var unclaimed: set<nat>

    ghost function Task(): Problem<T>
      reads A, B
    {
      Problem(ar, A[..], B[..], n)
    }

    ghost function Snapshot(): State<T>
      reads this, C
    {
      State(C[..], threads, unclaimed)
    }

    ghost predicate Valid()
      reads this, A, B, C
    {
      A != C && B != C && WellFormed(Task(), Snapshot())
    }

    constructor (ar: Arith<T>, n: nat, A: array<T>, B: array<T>, C: array<T>, k: nat)
      requires n < SIZE_LIMIT && A.Length == B.Length == C.Length == n * n && A != C && B != C
      ensures this.ar == ar && this.n == n && this.A == A && this.B == B && this.C == C
      ensures Valid() && Snapshot() == State(C[..], seq(k, _ => Idle), Columns(n))
    {
      this.ar, this.n, this.A, this.B, this.C := ar, n, A, B, C;
      threads := seq(k, _ => Idle);
      unclaimed := Columns(n);
    }

    method Make(m: Move)
      requires Valid() && Enabled(Snapshot(), m)
      modifies this, C
      ensures Valid() && Task() == old(Task()) && Snapshot() == Next(Task(), old(Snapshot()), m)
    {
      NextWellFormed(Task(), Snapshot(), m);
      match m {
        case Claim(t, col) =>
          threads := threads[t := Running(col, 0, 0, Load)];
          unclaimed := unclaimed - {col};
        case Access(t) =>
          var th := threads[t];
          CellInside(n, th.row, th.col);
          CellInside(n, th.row, th.index);
          CellInside(n, th.index, th.col);
          match th.phase {
            case Load =>
              threads := threads[t := th.(phase := Compute(C[Cell(n, th.row, th.col)]))];
            case Compute(acc) =>
              var sum := ar.add(acc, ar.mul(A[Cell(n, th.row, th.index)], B[Cell(n, th.index, th.col)]));
              threads := threads[t := th.(phase := Store(sum))];
            case Store(value) =>
              C[Cell(n, th.row, th.col)] := value;
              threads := threads[t := Advance(n, th)];
          }
      }
    }

    /** An arbitrary scheduler: each time it lets any running thread make its next access, or any
        idle thread claim any free column, until neither is left. */
    method Multiply()
      requires Valid() && Inv(Task(), Snapshot()) && |threads| > 0
      modifies this, C
      ensures Task() == old(Task()) && IsProduct(ar, A[..], B[..], n, C[..])
    {
      hide Work, ColumnAt, IsProduct;
      while true
        invariant Valid() && Task() == old(Task()) && Inv(Task(), Snapshot()) && |threads| > 0
        decreases Work(Task(), Snapshot())
      {
        var m: Move;
        assert threads[0].Running? || threads[0].Idle?;
        if {
          case exists t: nat :: t < |threads| && threads[t].Running? =>
            var t: nat :| t < |threads| && threads[t].Running?;
            m := Access(t);
          case unclaimed != {} && exists t: nat :: t < |threads| && threads[t].Idle? =>
            var t: nat :| t < |threads| && threads[t].Idle?;
            var col :| col in unclaimed;
            m := Claim(t, col);
          case unclaimed == {} && forall t: nat :: t < |threads| ==> threads[t].Idle? =>
            break;
        }
        NextInv(Task(), Snapshot(), m);
        MoveDoesOneUnit(Task(), Snapshot(), m);
        Make(m);
      }
      FinishedIsProduct(Task(), Snapshot());
    }
  }

  /** The program compiled with VERIFY_PARALLEL, after it has filled A and B: no assertion fails. */
  method MultiplyAndVerify<T(!new, ==)>(ar: Arith<T>, A: array<T>, B: array<T>, n: nat, k: nat)
    returns (C: array<T>, outside: bool, identical: bool)
    requires n <= SIZE_LIMIT && A.Length == B.Length == AllocatedCells(n) && k > 0
    ensures A[..] == old(A[..]) && B[..] == old(B[..])
    ensures outside <==> n == SIZE_LIMIT
    ensures !outside ==> identical && C.Length == n * n && IsProduct(ar, A[..], B[..], n, C[..])
  {
    hide ColumnAt, Terms;
    C := new T[AllocatedCells(n)](_ => ar.zero);
    var D := new T[AllocatedCells(n)](_ => ar.zero);
    OnlyTheLargestStartsOutside(n);
    outside, identical := StartsOutside(n, C.Length), false;
    if outside {
      return;
    }
    var team := new Team(ar, n, A, B, C, k);
    InitialInv(Problem(ar, A[..], B[..], n), C[..], k);
    team.Multiply();
    var _ := SerialMultiplyByColumns(ar, A, B, D, n);
    ProductUnique(ar, A[..], B[..], n, C[..], D[..]);
    identical := true;
    for index := 0 to n * n
      invariant identical
    {
      assert C[..][index] == D[..][index];
      if C[index] != D[index] {
        identical := false;
      }
    }
  }
}
