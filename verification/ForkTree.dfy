/** The process tree of user_space/tree_fork.c: every process prints its generation, forks a left and
    a right child that go on with the next generation, waits for one of them and exits. */
module ForkTree {
  import opened Arithmetic

  /** Where a process stands in the loop of `main`; `gen` is its private copy. */
  datatype Pc = Top | ForkLeft | ForkRight | Wait | Dead

  datatype Process = Process(parent: int, gen: nat, pc: Pc)

  /** A fork that failed: the generation of the process, and whether it was its first. */
  datatype Failure = Failure(gen: nat, left: bool)

  /** Processes are numbered in the order of their creation. `lines` are the generations printed so
      far, by all processes, `failures` the forks that have failed. */
  datatype State = State(processes: seq<Process>, lines: seq<nat>, failures: seq<Failure>)

  /** One process runs on; `forkOk` says whether its fork, if it is at one, succeeds. */
  datatype Move = Move(pid: nat, forkOk: bool)

  ghost predicate HasChild(s: State, pid: nat) {
    exists c :: 0 <= c < |s.processes| && s.processes[c].parent == pid
  }

  /** `wait` returns when a child has exited, or at once when there is no child. */
  ghost predicate WaitReturns(s: State, pid: nat) {
    !HasChild(s, pid) || exists c :: 0 <= c < |s.processes| && s.processes[c].parent == pid && s.processes[c].pc == Dead
  }

  ghost predicate Enabled(s: State, pid: nat) {
    && pid < |s.processes| && s.processes[pid].pc != Dead
    && (s.processes[pid].pc == Wait ==> WaitReturns(s, pid))
  }

  function Next(n: nat, s: State, m: Move): State
    requires m.pid < |s.processes|
  {
    var p := s.processes[m.pid];
    match p.pc
    case Top =>
      if p.gen < n then
        var gen := p.gen + 1;
        s.(processes := s.processes[m.pid := p.(gen := gen, pc := if gen < n then ForkLeft else Wait)],
           lines := s.lines + [gen])
      else s.(processes := s.processes[m.pid := p.(pc := Wait)])
    case ForkLeft =>
      if m.forkOk then
        s.(processes := s.processes[m.pid := p.(pc := ForkRight)] + [Process(m.pid, p.gen, Top)])
      else s.(processes := s.processes[m.pid := p.(pc := Dead)], failures := s.failures + [Failure(p.gen, true)])
    case ForkRight =>
      if m.forkOk then
        s.(processes := s.processes[m.pid := p.(pc := Wait)] + [Process(m.pid, p.gen, Top)])
      else s.(processes := s.processes[m.pid := p.(pc := Dead)], failures := s.failures + [Failure(p.gen, false)])
    case Wait => s.(processes := s.processes[m.pid := p.(pc := Dead)])
    case Dead => s
  }

  const ROOT := Process(-1, 0, Top)
  const START := State([ROOT], [], [])

  // ---- What a process still owes ----

  /** Lines of generation `j` in the subtree of a process at the top of its loop with `gen`. */
  function SubtreeLines(n: nat, gen: nat, j: nat): nat {
    if gen < j <= n then Pow2(j - gen - 1) else 0
  }

  /** All lines of that subtree. */
  function SubtreeTotal(n: nat, gen: nat): nat {
    if gen < n then Pow2(n - gen) - 1 else 0
  }

  /** Steps of all processes of that subtree. */
  function SubtreeSteps(n: nat, gen: nat): nat
    decreases n - gen
  {
    if gen + 1 < n then 4 + 2 * SubtreeSteps(n, gen + 1) else 2
  }

  datatype Measure = Lines(j: nat) | Total | Steps

  function Subtree(n: nat, gen: nat, what: Measure): nat {
    match what
    case Lines(j) => SubtreeLines(n, gen, j)
    case Total => SubtreeTotal(n, gen)
    case Steps => SubtreeSteps(n, gen)
  }

  /** What one process owes: its own remaining steps and the subtrees it has not forked yet. */
  function Owed(n: nat, p: Process, what: Measure): nat {
    match p.pc
    case Top => Subtree(n, p.gen, what)
    case ForkLeft => 2 * Subtree(n, p.gen, what) + if what.Steps? then 3 else 0
    case ForkRight => Subtree(n, p.gen, what) + if what.Steps? then 2 else 0
    case Wait => if what.Steps? then 1 else 0
    case Dead => 0
  }

  function OwedByAll(n: nat, ps: seq<Process>, what: Measure): nat {
    if ps == [] then 0 else OwedByAll(n, ps[..|ps| - 1], what) + Owed(n, ps[|ps| - 1], what)
  }

  /** What is lost for good when a fork fails: the subtrees the process has not forked yet, and what it
      had still to do after the fork. */
  function Lost(n: nat, f: Failure, what: Measure): nat {
    if f.left then 2 * Subtree(n, f.gen, what) + (if what.Steps? then 2 else 0)
    else Subtree(n, f.gen, what) + if what.Steps? then 1 else 0
  }

  function LostByAll(n: nat, failures: seq<Failure>, what: Measure): nat {
    if failures == [] then 0
    else LostByAll(n, failures[..|failures| - 1], what) + Lost(n, failures[|failures| - 1], what)
  }

  lemma LostByNew(n: nat, failures: seq<Failure>, f: Failure, what: Measure)
    ensures LostByAll(n, failures + [f], what) == LostByAll(n, failures, what) + Lost(n, f, what)
  {
    assert (failures + [f])[..|failures|] == failures;
  }

  lemma {:induction false} OwedUpdate(n: nat, ps: seq<Process>, pid: nat, p: Process, what: Measure)
    requires pid < |ps|
    ensures OwedByAll(n, ps[pid := p], what) == OwedByAll(n, ps, what) - Owed(n, ps[pid], what) + Owed(n, p, what)
  {
    var last := |ps| - 1;
    if pid == last {
      assert ps[pid := p][..last] == ps[..last];
    } else {
      assert ps[pid := p][..last] == ps[..last][pid := p];
      OwedUpdate(n, ps[..last], pid, p, what);
    }
  }

  lemma OwedByNew(n: nat, ps: seq<Process>, p: Process, what: Measure)
    ensures OwedByAll(n, ps + [p], what) == OwedByAll(n, ps, what) + Owed(n, p, what)
  {
  }

  /** Printed lines and debts together, for one generation or for all. */
  function Printed(s: State, what: Measure): nat {
    match what
    case Lines(j) => multiset(s.lines)[j]
    case Total => |s.lines|
    case Steps => 0
  }

  /** Printed, still owed, or lost: all that the tree amounts to. */
  function Account(n: nat, s: State, what: Measure): nat {
    Printed(s, what) + OwedByAll(n, s.processes, what) + LostByAll(n, s.failures, what)
  }

  lemma OwnLine(n: nat, gen: nat, what: Measure)
    requires gen < n
    ensures Subtree(n, gen, what) ==
              match what
              case Lines(j) =>
                (if j == gen + 1 then 1 else 0) + if gen + 1 < n then 2 * SubtreeLines(n, gen + 1, j) else 0
              case Total => 1 + if gen + 1 < n then 2 * SubtreeTotal(n, gen + 1) else 0
              case Steps => if gen + 1 < n then 4 + 2 * SubtreeSteps(n, gen + 1) else 2
  {
  }

  /** A move keeps what is printed, owed and lost together, of one generation or of all, and does one
      unit of the work, whether its fork fails or not. */
  lemma MoveConserves(n: nat, s: State, m: Move, what: Measure)
    requires m.pid < |s.processes| && s.processes[m.pid].pc != Dead
    ensures Account(n, Next(n, s, m), what) == Account(n, s, what) - if what.Steps? then 1 else 0
  {
    hide OwedByAll, LostByAll, Pow2;
    var s' := Next(n, s, m);
    var p := s.processes[m.pid];
    var p' := s'.processes[m.pid];
    OwedUpdate(n, s.processes, m.pid, p', what);
    if p.pc == Top && p.gen < n {
      OwnLine(n, p.gen, what);
    } else if p.pc == ForkLeft || p.pc == ForkRight {
      if m.forkOk {
        OwedByNew(n, s.processes[m.pid := p'], Process(m.pid, p.gen, Top), what);
        assert s'.processes == s.processes[m.pid := p'] + [Process(m.pid, p.gen, Top)];
      } else {
        LostByNew(n, s.failures, Failure(p.gen, p.pc == ForkLeft), what);
      }
    } else {
      assert s'.processes == s.processes[m.pid := p'];
    }
  }

  // ---- Runs ----

  /** Parents are older than their children, so the youngest live process never waits in vain. */
  ghost predicate Inv(n: nat, s: State) {
    && (forall c :: 0 <= c < |s.processes| ==> s.processes[c].parent < c)
    && (forall c :: 0 <= c < |s.processes| ==> (s.processes[c].pc == Top ==> s.processes[c].gen < n))
    && (forall c :: 0 <= c < |s.processes| && s.processes[c].pc in {ForkLeft, ForkRight} ==> s.processes[c].gen < n)
  }

  ghost predicate AllDead(s: State) {
    forall c :: 0 <= c < |s.processes| ==> s.processes[c].pc == Dead
  }

  ghost predicate Legal(n: nat, s: State, moves: seq<Move>)
    decreases |moves|
  {
    moves == [] || (Enabled(s, moves[0].pid) && Legal(n, Next(n, s, moves[0]), moves[1..]))
  }

  ghost function Execute(n: nat, s: State, moves: seq<Move>): State
    requires Legal(n, s, moves)
    decreases |moves|
  {
    if moves == [] then s else Execute(n, Next(n, s, moves[0]), moves[1..])
  }

  lemma NextInv(n: nat, s: State, m: Move)
    requires Inv(n, s) && Enabled(s, m.pid)
    ensures Inv(n, Next(n, s, m))
  {
  }

  /** While any process is live, some process can run on, although parents block in `wait`. */
  lemma Progress(n: nat, s: State)
    requires Inv(n, s) && !AllDead(s)
    ensures exists pid :: Enabled(s, pid)
  {
    var c: nat :| c < |s.processes| && s.processes[c].pc != Dead;
    var pid := Youngest(s, c, |s.processes|);
    assert Enabled(s, pid);
  }

  lemma Youngest(s: State, c: nat, bound: nat) returns (pid: nat)
    requires c < bound <= |s.processes| && s.processes[c].pc != Dead
    requires forall d :: bound <= d < |s.processes| ==> s.processes[d].pc == Dead
    ensures pid < |s.processes| && s.processes[pid].pc != Dead
    ensures forall d :: pid < d < |s.processes| ==> s.processes[d].pc == Dead
  {
    if s.processes[bound - 1].pc != Dead {
      pid := bound - 1;
    } else {
      pid := Youngest(s, c, bound - 1);
    }
  }

  lemma {:induction false} RunConserves(n: nat, s: State, moves: seq<Move>, what: Measure)
    requires Inv(n, s) && Legal(n, s, moves)
    ensures var e := Execute(n, s, moves);
            Inv(n, e) && Account(n, e, what) == Account(n, s, what) - if what.Steps? then |moves| else 0
    decreases |moves|
  {
    if moves != [] {
      NextInv(n, s, moves[0]);
      MoveConserves(n, s, moves[0], what);
      RunConserves(n, Next(n, s, moves[0]), moves[1..], what);
    }
  }

  lemma {:induction false} DeadOweNothing(n: nat, ps: seq<Process>, what: Measure)
    requires forall c :: 0 <= c < |ps| ==> ps[c].pc == Dead
    ensures OwedByAll(n, ps, what) == 0
  {
    if ps != [] {
      DeadOweNothing(n, ps[..|ps| - 1], what);
    }
  }

  lemma {:induction false} LiveOwe(n: nat, ps: seq<Process>)
    requires exists c :: 0 <= c < |ps| && ps[c].pc != Dead
    ensures OwedByAll(n, ps, Steps) > 0
  {
    if ps[|ps| - 1].pc == Dead {
      LiveOwe(n, ps[..|ps| - 1]);
    }
  }

  lemma StartAccount(n: nat, what: Measure)
    ensures Account(n, START, what) == Subtree(n, 0, what)
  {
    OwedByNew(n, [], ROOT, what);
    assert [] + [ROOT] == START.processes;
  }

  /** In every interleaving generation j has printed, still owes or has lost to failed forks 2^(j-1)
      lines, and all generations together 2^n - 1. */
  lemma LinesAreConserved(n: nat, moves: seq<Move>, j: nat)
    requires n >= 1 && Legal(n, START, moves) && 1 <= j <= n
    ensures var e := Execute(n, START, moves);
            && multiset(e.lines)[j] + OwedByAll(n, e.processes, Lines(j)) + LostByAll(n, e.failures, Lines(j))
               == Pow2(j - 1)
            && |e.lines| + OwedByAll(n, e.processes, Total) + LostByAll(n, e.failures, Total) == Pow2(n) - 1
  {
    RunConserves(n, START, moves, Lines(j));
    RunConserves(n, START, moves, Total);
    StartAccount(n, Lines(j));
    StartAccount(n, Total);
  }

  /** Every run is finite and can go on while a process lives. When all are dead, the steps made and the
      lines printed of each generation are those of the whole tree, 6 * 2^(n-1) - 4 and 2^(j-1), less
      exactly what the failed forks have lost. */
  lemma EveryRunPrintsTheTree(n: nat, moves: seq<Move>, j: nat)
    requires n >= 1 && Legal(n, START, moves) && 1 <= j <= n
    ensures var e := Execute(n, START, moves);
            && |moves| + LostByAll(n, e.failures, Steps) <= 6 * Pow2(n - 1) - 4
            && ((exists pid :: Enabled(e, pid)) <==> !AllDead(e))
            && (AllDead(e) <==> |moves| + LostByAll(n, e.failures, Steps) == 6 * Pow2(n - 1) - 4)
            && (AllDead(e) ==>
                  && multiset(e.lines)[j] == Pow2(j - 1) - LostByAll(n, e.failures, Lines(j))
                  && |e.lines| == Pow2(n) - 1 - LostByAll(n, e.failures, Total))
  {
    hide OwedByAll, LostByAll, Next, Pow2;
    var e := Execute(n, START, moves);
    LinesAreConserved(n, moves, j);
    RunConserves(n, START, moves, Steps);
    StartAccount(n, Steps);
    StepsClosedForm(n, 0);
    if AllDead(e) {
      DeadOweNothing(n, e.processes, Lines(j));
      DeadOweNothing(n, e.processes, Total);
      DeadOweNothing(n, e.processes, Steps);
    } else {
      Progress(n, e);
      LiveOwe(n, e.processes);
    }
  }

  lemma {:induction false} StepsClosedForm(n: nat, gen: nat)
    requires gen < n
    ensures SubtreeSteps(n, gen) == 6 * Pow2(n - gen - 1) - 4
    decreases n - gen
  {
    if gen + 1 < n {
      StepsClosedForm(n, gen + 1);
    }
  }

  ghost predicate AllAccounted(n: nat, s: State) {
    forall what: Measure :: what.Steps? || Account(n, s, what) == Subtree(n, 0, what)
  }

  lemma StartIsAccounted(n: nat)
    ensures AllAccounted(n, START)
  {
    forall what: Measure | !what.Steps?
      ensures Account(n, START, what) == Subtree(n, 0, what)
    {
      StartAccount(n, what);
    }
  }

  lemma NextIsAccounted(n: nat, s: State, m: Move)
    requires AllAccounted(n, s) && Enabled(s, m.pid)
    ensures AllAccounted(n, Next(n, s, m))
    ensures OwedByAll(n, Next(n, s, m).processes, Steps) < OwedByAll(n, s.processes, Steps)
  {
    MoveConserves(n, s, m, Steps);
    LostGrows(n, s, m);
    forall what: Measure | !what.Steps?
      ensures Account(n, Next(n, s, m), what) == Subtree(n, 0, what)
    {
      MoveConserves(n, s, m, what);
    }
  }

  lemma LostGrows(n: nat, s: State, m: Move)
    requires m.pid < |s.processes|
    ensures LostByAll(n, Next(n, s, m).failures, Steps) >= LostByAll(n, s.failures, Steps)
  {
    var s' := Next(n, s, m);
    if s'.failures != s.failures {
      LostByNew(n, s.failures, s'.failures[|s.failures|], Steps);
    }
  }

  lemma EndIsTree(n: nat, s: State, j: nat)
    requires AllAccounted(n, s) && AllDead(s) && 1 <= j <= n
    ensures multiset(s.lines)[j] == Pow2(j - 1) - LostByAll(n, s.failures, Lines(j))
    ensures |s.lines| == Pow2(n) - 1 - LostByAll(n, s.failures, Total)
  {
    DeadOweNothing(n, s.processes, Lines(j));
    DeadOweNothing(n, s.processes, Total);
    assert Account(n, s, Lines(j)) == Subtree(n, 0, Lines(j)) && Account(n, s, Total) == Subtree(n, 0, Total);
  }

  // ---- Waiting for one child ----

  function Children(s: State, pid: nat): set<nat> {
    set c | 0 <= c < |s.processes| && s.processes[c].parent == pid
  }

  ghost predicate ChildDied(s: State, pid: nat) {
    exists c :: c in Children(s, pid) && s.processes[c].pc == Dead
  }

  /** How many children a process has, by where it stands; one that has made both is dead only after
      one of them. */
  ghost predicate FamilyOk(n: nat, s: State, pid: nat)
    requires pid < |s.processes|
  {
    match s.processes[pid].pc
    case Top => |Children(s, pid)| == 0
    case ForkLeft => |Children(s, pid)| == 0
    case ForkRight => |Children(s, pid)| == 1
    case Wait => s.processes[pid].gen <= n && |Children(s, pid)| == if s.processes[pid].gen < n then 2 else 0
    case Dead => |Children(s, pid)| == 2 ==> ChildDied(s, pid)
  }

  ghost predicate FamiliesOk(n: nat, s: State) {
    && (forall c :: 0 <= c < |s.processes| ==> s.processes[c].parent < |s.processes|)
    && (forall pid: nat :: pid < |s.processes| ==> FamilyOk(n, s, pid))
    && (forall pid: nat :: pid < |s.processes| ==> s.processes[pid].gen <= n)
  }

  /** The children after a move: a successful fork adds the new process to those of the mover. */
  lemma NextChildren(n: nat, s: State, m: Move, pid: nat)
    requires m.pid < |s.processes| && pid < |s.processes|
    ensures var s' := Next(n, s, m);
            Children(s', pid) == Children(s, pid)
              + if pid == m.pid && |s'.processes| > |s.processes| then {|s.processes|} else {}
  {
    var s' := Next(n, s, m);
    assert forall c :: 0 <= c < |s.processes| ==> s'.processes[c].parent == s.processes[c].parent;
    assert |s'.processes| > |s.processes| ==>
      |s'.processes| == |s.processes| + 1 && s'.processes[|s.processes|].parent == m.pid;
  }

  /** The move of another process. */
  lemma OtherFamily(n: nat, s: State, m: Move, pid: nat)
    requires Enabled(s, m.pid) && pid < |s.processes| && pid != m.pid && FamilyOk(n, s, pid)
    ensures pid < |Next(n, s, m).processes| && FamilyOk(n, Next(n, s, m), pid)
  {
    var s' := Next(n, s, m);
    NextChildren(n, s, m, pid);
    hide Children;
    assert s'.processes[pid] == s.processes[pid];
    if ChildDied(s, pid) {
      var c :| c in Children(s, pid) && s.processes[c].pc == Dead;
      ChildInside(s, pid, c);
      assert c in Children(s', pid) && s'.processes[c].pc == Dead;
    }
  }

  lemma ChildInside(s: State, pid: nat, c: nat)
    requires c in Children(s, pid)
    ensures c < |s.processes|
  {
  }

  /** The process that moves, at its `wait`. */
  lemma WaitFamily(n: nat, s: State, m: Move)
    requires Enabled(s, m.pid) && s.processes[m.pid].pc == Wait
    ensures m.pid < |Next(n, s, m).processes| && FamilyOk(n, Next(n, s, m), m.pid)
  {
    var s' := Next(n, s, m);
    NextChildren(n, s, m, m.pid);
    if HasChild(s, m.pid) {
      var c :| 0 <= c < |s.processes| && s.processes[c].parent == m.pid && s.processes[c].pc == Dead;
      assert c in Children(s', m.pid) && s'.processes[c].pc == Dead;
    } else {
      assert Children(s, m.pid) == {};
    }
  }

  /** Where the process that moves stands afterwards, and whether it has a new child. */
  lemma MoverAfter(n: nat, s: State, m: Move)
    requires m.pid < |s.processes| && s.processes[m.pid].gen <= n
    ensures var p, s' := s.processes[m.pid], Next(n, s, m);
            var q, grown := s'.processes[m.pid], |s'.processes| > |s.processes|;
            && (p.pc == Top ==> !grown && (q.pc == ForkLeft || (q.pc == Wait && q.gen == n)))
            && (p.pc == ForkLeft ==> if grown then q.pc == ForkRight else q.pc == Dead)
            && (p.pc == ForkRight ==> if grown then q.pc == Wait && q.gen == p.gen else q.pc == Dead)
  {
  }

  /** The process that moves, anywhere else. */
  lemma OwnFamily(n: nat, s: State, m: Move)
    requires Enabled(s, m.pid) && s.processes[m.pid].pc != Wait && FamilyOk(n, s, m.pid)
    requires s.processes[m.pid].gen <= n && (s.processes[m.pid].pc.ForkRight? ==> s.processes[m.pid].gen < n)
    ensures m.pid < |Next(n, s, m).processes| && FamilyOk(n, Next(n, s, m), m.pid)
  {
    OneChildMore(n, s, m);
    MoverAfter(n, s, m);
    assert |Next(n, s, m).processes| >= |s.processes|;
    hide Children, ChildDied, WaitReturns, HasChild, Next;
  }

  lemma OneChildMore(n: nat, s: State, m: Move)
    requires m.pid < |s.processes|
    ensures var s' := Next(n, s, m);
            |Children(s', m.pid)| == |Children(s, m.pid)| + if |s'.processes| > |s.processes| then 1 else 0
  {
    NextChildren(n, s, m, m.pid);
    assert |s.processes| !in Children(s, m.pid);
  }

  lemma NewFamily(n: nat, s: State, m: Move)
    requires FamiliesOk(n, s) && Inv(n, s) && Enabled(s, m.pid) && |Next(n, s, m).processes| > |s.processes|
    ensures FamilyOk(n, Next(n, s, m), |s.processes|)
  {
    assert Children(Next(n, s, m), |s.processes|) == {};
  }

  lemma NextFamilies(n: nat, s: State, m: Move)
    requires FamiliesOk(n, s) && Inv(n, s) && Enabled(s, m.pid)
    ensures FamiliesOk(n, Next(n, s, m))
  {
    var s' := Next(n, s, m);
    forall pid: nat | pid < |s'.processes|
      ensures FamilyOk(n, s', pid)
    {
      assert pid < |s.processes| ==> FamilyOk(n, s, pid);
      if pid == m.pid {
        if s.processes[pid].pc == Wait {
          WaitFamily(n, s, m);
        } else {
          OwnFamily(n, s, m);
        }
      } else if pid < |s.processes| {
        OtherFamily(n, s, m, pid);
      } else {
        NewFamily(n, s, m);
      }
    }
  }

  lemma {:induction false} RunFamilies(n: nat, s: State, moves: seq<Move>)
    requires FamiliesOk(n, s) && Inv(n, s) && Legal(n, s, moves)
    ensures FamiliesOk(n, Execute(n, s, moves))
    decreases |moves|
  {
    if moves != [] {
      NextFamilies(n, s, moves[0]);
      NextInv(n, s, moves[0]);
      hide FamiliesOk, Inv, Next;
      RunFamilies(n, Next(n, s, moves[0]), moves[1..]);
    }
  }

  /** In every run a process of the last generation waits for nobody, a process that has forked two
      children can go on from its `wait` exactly when one of them has died, and none that has forked
      both is dead before. */
  lemma WaitsForOneChild(n: nat, moves: seq<Move>, pid: nat)
    requires n >= 1 && Legal(n, START, moves) && pid < |Execute(n, START, moves).processes|
    ensures var e := Execute(n, START, moves);
            var p := e.processes[pid];
            && (p.pc == Wait ==> |Children(e, pid)| == if p.gen == n then 0 else 2)
            && (p.pc == Wait ==> (Enabled(e, pid) <==> p.gen == n || ChildDied(e, pid)))
            && (p.pc == Dead && |Children(e, pid)| == 2 ==> ChildDied(e, pid))
  {
    assert Children(START, 0) == {};
    RunFamilies(n, START, moves);
    var e := Execute(n, START, moves);
    assert FamilyOk(n, e, pid);
    if e.processes[pid].pc == Wait {
      WaitExactly(n, e, pid);
    }
  }

  lemma WaitExactly(n: nat, s: State, pid: nat)
    requires pid < |s.processes| && s.processes[pid].pc == Wait && FamilyOk(n, s, pid)
    ensures Enabled(s, pid) <==> s.processes[pid].gen == n || ChildDied(s, pid)
  {
    assert forall c :: 0 <= c < |s.processes| ==> (s.processes[c].parent == pid <==> c in Children(s, pid));
    if Children(s, pid) != {} {
      var c :| c in Children(s, pid);
      assert HasChild(s, pid);
    } else {
      assert !HasChild(s, pid);
    }
  }

  // ---- The processes, run by an arbitrary scheduler ----

  class Machine {
    const generations: nat
    var processes: seq<Process>
    var lines: seq<nat>
    var failures: seq<Failure>

    ghost function Snapshot(): State
      reads this
    {
      State(processes, lines, failures)
    }

    constructor (generations: nat)
      ensures this.generations == generations && Snapshot() == START
    {
      this.generations := generations;
      processes, lines, failures := [ROOT], [], [];
    }

    method SetProcess(pid: nat, p: Process)
      requires pid < |processes|
      modifies this`processes
      ensures processes == old(processes)[pid := p]
    {
      processes := processes[pid := p];
    }

    /** One process runs to its next fork, wait or exit. */
    method Continue(pid: nat, forkOk: bool)
      requires Enabled(Snapshot(), pid)
      modifies this
      ensures Snapshot() == Next(generations, old(Snapshot()), Move(pid, forkOk))
    {
      var p := processes[pid];
      match p.pc {
        case Top =>
          if p.gen < generations {
            lines := lines + [p.gen + 1];
            SetProcess(pid, Process(p.parent, p.gen + 1, if p.gen + 1 < generations then ForkLeft else Wait));
          } else {
            SetProcess(pid, p.(pc := Wait));
          }
        case ForkLeft =>
          if forkOk {
            SetProcess(pid, p.(pc := ForkRight));
            processes := processes + [Process(pid, p.gen, Top)];
          } else {
            failures := failures + [Failure(p.gen, true)];
            SetProcess(pid, p.(pc := Dead));
          }
        case ForkRight =>
          if forkOk {
            SetProcess(pid, p.(pc := Wait));
            processes := processes + [Process(pid, p.gen, Top)];
          } else {
            failures := failures + [Failure(p.gen, false)];
            SetProcess(pid, p.(pc := Dead));
          }
        case Wait =>
          SetProcess(pid, p.(pc := Dead));
      }
    }

    /** Runs the tree until every process has exited; forks succeed or fail at will. */
    method Run()
      requires generations >= 1 && Snapshot() == START
      modifies this
      ensures AllDead(Snapshot())
      ensures forall j :: 1 <= j <= generations ==>
                multiset(lines)[j] == Pow2(j - 1) - LostByAll(generations, failures, Lines(j))
      ensures |lines| == Pow2(generations) - 1 - LostByAll(generations, failures, Total)
    {
      StartIsAccounted(generations);
      while exists pid: nat :: pid < |processes| && processes[pid].pc != Dead
        invariant Inv(generations, Snapshot()) && AllAccounted(generations, Snapshot())
        decreases OwedByAll(generations, processes, Steps)
      {
        Progress(generations, Snapshot());
        var chosen := Choose();
        var forkOk: bool := *;
        NextInv(generations, Snapshot(), Move(chosen, forkOk));
        NextIsAccounted(generations, Snapshot(), Move(chosen, forkOk));
        Continue(chosen, forkOk);
      }
      forall j | 1 <= j <= generations
        ensures multiset(lines)[j] == Pow2(j - 1) - LostByAll(generations, failures, Lines(j))
      {
        EndIsTree(generations, Snapshot(), j);
      }
      EndIsTree(generations, Snapshot(), 1);
    }

    /** Any process that can run on. */
    method Choose() returns (pid: nat)
      requires exists pid :: Enabled(Snapshot(), pid)
      ensures Enabled(Snapshot(), pid)
    {
      pid :| pid < |processes| && processes[pid].pc != Dead
        && (processes[pid].pc == Wait ==>
              || (forall c :: 0 <= c < |processes| ==> processes[c].parent != pid)
              || exists c :: 0 <= c < |processes| && processes[c].parent == pid && processes[c].pc == Dead);
    }
  }
}
