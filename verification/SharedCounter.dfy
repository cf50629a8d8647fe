/** The kernel threads of studios/studio8/core_thread.c and core_thread_atomic.c. All of them loop
    on one static variable `i`; its increment is a read and a later write, so a slow thread can
    move `i` backwards under the others. The model starts when `mod_init` has returned and the
    first instruction of no thread has run yet. */
module SharedCounter {
  import opened Arithmetic

  const INT_MAX: int := 0x7fff_ffff

  /** Atomic: `shared_data` is an `atomic_t`. Plain: it is a volatile int, read and then written. */
  datatype Kind = Atomic | Plain

  /** Where a thread stands in `for (i=0; i<iters; i++)`, with the value its register holds. */
  datatype Thread =
    | Start                   // about to store 0 in i
    | Test                    // about to compare i with iters
    | Body                    // about to update shared_data
    | WriteData(data: int)    // has read shared_data, about to store data + 1
    | ReadI                   // about to read i for i++
    | WriteI(value: int)      // has read i, about to store value + 1
    | Done                    // has left the loop

  /** `adds` counts finished loop bodies. A signed overflow is undefined behaviour (section 6.5 of
      ISO C11): the model records it in `overflowed` and goes no further. */
  datatype State = State(i: int, sharedData: int, threads: seq<Thread>, adds: nat, overflowed: bool)

  /** `atomic_t` arithmetic wraps in 32-bit two's complement. */
  function Wrap(x: int): (r: int)
    ensures -INT_MAX - 1 <= r <= INT_MAX
    ensures -INT_MAX - 1 <= x <= INT_MAX ==> r == x
    ensures (x - r) % 0x1_0000_0000 == 0
  {
    (x + INT_MAX + 1) % 0x1_0000_0000 - INT_MAX - 1
  }

  predicate Enabled(s: State, t: nat) {
    !s.overflowed && t < |s.threads| && s.threads[t] != Done
  }

  ghost predicate AllDone(threads: seq<Thread>) {
    forall t :: 0 <= t < |threads| ==> threads[t] == Done
  }

  ghost predicate Halted(s: State) {
    s.overflowed || AllDone(s.threads)
  }

  /** One memory access of thread `t`. */
  function Next(kind: Kind, iters: nat, s: State, t: nat): State
    requires Enabled(s, t)
  {
    match s.threads[t]
    case Start => s.(i := 0, threads := s.threads[t := Test])
    case Test => s.(threads := s.threads[t := if s.i < iters then Body else Done])
    case Body =>
      if kind == Atomic then
        s.(sharedData := Wrap(s.sharedData + 1), adds := s.adds + 1, threads := s.threads[t := ReadI])
      else
        s.(threads := s.threads[t := WriteData(s.sharedData)])
    case WriteData(data) =>
      if data >= INT_MAX then s.(overflowed := true)
      else s.(sharedData := data + 1, adds := s.adds + 1, threads := s.threads[t := ReadI])
    case ReadI => s.(threads := s.threads[t := WriteI(s.i)])
    case WriteI(value) =>
      if value >= INT_MAX then s.(overflowed := true)
      else s.(i := value + 1, threads := s.threads[t := Test])
    case Done => s
  }

  // ---- Termination: a potential over every value of i that is stored or held ----

  function Pow(b: nat, e: nat): (p: nat)
    ensures b > 0 ==> p >= 1
    ensures b > 1 && e > 0 ==> p > 1
  {
    if e == 0 then 1 else b * Pow(b, e - 1)
  }

  /** A value of i weighs (k + 2) for every increment it is short of `iters`. */
  function Weight(k: nat, iters: nat, level: int): (w: nat)
    ensures w >= 1
  {
    Pow(k + 2, if level < iters then iters - level else 0)
  }

  /** The value of i that thread `th` will use: the one it holds, otherwise the stored one. */
  function Slot(i: int, th: Thread): int {
    if th.WriteI? then th.value else i
  }

  function SlotSum(k: nat, iters: nat, i: int, threads: seq<Thread>): nat {
    if threads == [] then 0
    else SlotSum(k, iters, i, threads[..|threads| - 1]) + Weight(k, iters, Slot(i, threads[|threads| - 1]))
  }

  function Potential(iters: nat, s: State): nat {
    Weight(|s.threads|, iters, s.i) + SlotSum(|s.threads|, iters, s.i, s.threads)
  }

  function Unstarted(threads: seq<Thread>): nat {
    if threads == [] then 0
    else Unstarted(threads[..|threads| - 1]) + if threads[|threads| - 1] == Start then 1 else 0
  }

  /** Accesses a thread can make before it must either store to i or see that the loop is over. */
  function Rank(iters: nat, i: int, th: Thread): nat {
    match th
    case Start => 0
    case Test => if i < iters then 6 else 1
    case Body => 5
    case WriteData(_) => 4
    case ReadI => 3
    case WriteI(_) => 2
    case Done => 0
  }

  function RankSum(iters: nat, i: int, threads: seq<Thread>): nat {
    if threads == [] then 0
    else RankSum(iters, i, threads[..|threads| - 1]) + Rank(iters, i, threads[|threads| - 1])
  }

  lemma {:induction false} SlotSumUpdate(k: nat, iters: nat, i: int, threads: seq<Thread>, t: nat, th: Thread)
    requires t < |threads|
    ensures SlotSum(k, iters, i, threads[t := th])
         == SlotSum(k, iters, i, threads) - Weight(k, iters, Slot(i, threads[t])) + Weight(k, iters, Slot(i, th))
  {
    var n := |threads| - 1;
    if t == n {
      assert threads[t := th][..n] == threads[..n];
    } else {
      assert threads[t := th][..n] == threads[..n][t := th];
      SlotSumUpdate(k, iters, i, threads[..n], t, th);
    }
  }

  lemma {:induction false} UnstartedUpdate(threads: seq<Thread>, t: nat, th: Thread)
    requires t < |threads|
    ensures Unstarted(threads[t := th])
         == Unstarted(threads) - (if threads[t] == Start then 1 else 0) + if th == Start then 1 else 0
  {
    var n := |threads| - 1;
    if t == n {
      assert threads[t := th][..n] == threads[..n];
    } else {
      assert threads[t := th][..n] == threads[..n][t := th];
      UnstartedUpdate(threads[..n], t, th);
    }
  }

  lemma {:induction false} RankSumUpdate(iters: nat, i: int, threads: seq<Thread>, t: nat, th: Thread)
    requires t < |threads|
    ensures RankSum(iters, i, threads[t := th])
         == RankSum(iters, i, threads) - Rank(iters, i, threads[t]) + Rank(iters, i, th)
  {
    var n := |threads| - 1;
    if t == n {
      assert threads[t := th][..n] == threads[..n];
    } else {
      assert threads[t := th][..n] == threads[..n][t := th];
      RankSumUpdate(iters, i, threads[..n], t, th);
    }
  }

  /** Whether the loop looks finished is all that the ranks read from i. */
  lemma {:induction false} RankSumSameSide(iters: nat, i: int, j: int, threads: seq<Thread>)
    requires i >= iters && j >= iters
    ensures RankSum(iters, i, threads) == RankSum(iters, j, threads)
  {
    if threads != [] {
      RankSumSameSide(iters, i, j, threads[..|threads| - 1]);
    }
  }

  lemma {:induction false} SlotSumAfterStore(k: nat, iters: nat, i: int, j: int, threads: seq<Thread>)
    ensures SlotSum(k, iters, j, threads) <= SlotSum(k, iters, i, threads) + |threads| * Weight(k, iters, j)
  {
    if threads != [] {
      var n := |threads| - 1;
      SlotSumAfterStore(k, iters, i, j, threads[..n]);
      OneMore(n, Weight(k, iters, j));
    }
  }

  lemma {:induction false} SlotSumMonotone(k: nat, iters: nat, i: int, j: int, threads: seq<Thread>)
    requires Weight(k, iters, j) <= Weight(k, iters, i)
    ensures SlotSum(k, iters, j, threads) <= SlotSum(k, iters, i, threads)
  {
    if threads != [] {
      SlotSumMonotone(k, iters, i, j, threads[..|threads| - 1]);
    }
  }

  lemma WeightStep(k: nat, iters: nat, level: int)
    ensures level < iters ==> Weight(k, iters, level) == (k + 2) * Weight(k, iters, level + 1)
    ensures level < iters ==> Weight(k, iters, level) > 1
    ensures level >= iters ==> Weight(k, iters, level) == 1
  {
  }

  /** A store of value + 1 with value < iters burns the token it was made from, which outweighs
      every copy of the new value: i itself and the slots of all k threads. */
  lemma LowStoreBurnsPotential(iters: nat, s: State, t: nat, value: int)
    requires t < |s.threads| && s.threads[t] == WriteI(value) && value < iters
    ensures Potential(iters, s.(i := value + 1, threads := s.threads[t := Test])) < Potential(iters, s)
  {
    var k := |s.threads|;
    var threads' := s.threads[t := Test];
    assert |threads'| == k;
    var w := Weight(k, iters, value + 1);
    WeightStep(k, iters, value);
    OneMore(k, w);
    OneMore(k + 1, w);
    SlotSumUpdate(k, iters, s.i, s.threads, t, Test);
    SlotSumAfterStore(k, iters, s.i, value + 1, threads');
    calc {
      Potential(iters, s.(i := value + 1, threads := threads'));
      w + SlotSum(k, iters, value + 1, threads');
    <=
      w + SlotSum(k, iters, s.i, threads') + k * w;
    <
      SlotSum(k, iters, s.i, threads') + Weight(k, iters, value);
      Potential(iters, s);
    }
  }

  /** A store of value + 1 with value >= iters lets no token grow, and shrinks i if that was low. */
  lemma HighStoreKeepsPotential(iters: nat, s: State, t: nat, value: int)
    requires t < |s.threads| && s.threads[t] == WriteI(value) && value >= iters
    ensures var after := Potential(iters, s.(i := value + 1, threads := s.threads[t := Test]));
            if s.i < iters then after < Potential(iters, s) else after == Potential(iters, s)
  {
    var k := |s.threads|;
    var threads' := s.threads[t := Test];
    assert |threads'| == k;
    WeightStep(k, iters, value);
    WeightStep(k, iters, value + 1);
    WeightStep(k, iters, s.i);
    SlotSumUpdate(k, iters, value + 1, s.threads, t, Test);
    SlotSumMonotone(k, iters, s.i, value + 1, s.threads);
    if s.i >= iters {
      SlotSumMonotone(k, iters, value + 1, s.i, s.threads);
    }
  }

  /** Lexicographic order on (not yet overflowed, threads not yet started, potential, ranks). */
  predicate Descends(iters: nat, s: State, s': State) {
    || (!s.overflowed && s'.overflowed)
    || (s.overflowed == s'.overflowed &&
        (|| Unstarted(s'.threads) < Unstarted(s.threads)
         || (Unstarted(s'.threads) == Unstarted(s.threads) &&
             (|| Potential(iters, s') < Potential(iters, s)
              || (Potential(iters, s') == Potential(iters, s) &&
                  RankSum(iters, s'.i, s'.threads) < RankSum(iters, s.i, s.threads))))))
  }

  /** Every access of every thread, from every state, reachable or not, descends. */
  lemma EveryStepDescends(kind: Kind, iters: nat, s: State, t: nat)
    requires Enabled(s, t)
    ensures Descends(iters, s, Next(kind, iters, s, t))
  {
    hide Weight, SlotSum, RankSum, Unstarted;
    var s' := Next(kind, iters, s, t);
    if s'.overflowed == s.overflowed {
      UnstartedUpdate(s.threads, t, s'.threads[t]);
      if s.threads[t].WriteI? {
        var value := s.threads[t].value;
        if value < iters {
          LowStoreBurnsPotential(iters, s, t, value);
        } else {
          HighStoreKeepsPotential(iters, s, t, value);
        }
        if value >= iters && s.i >= iters {
          RankSumUpdate(iters, s.i, s.threads, t, Test);
          RankSumSameSide(iters, s.i, s'.i, s'.threads);
        }
      } else if s.threads[t] != Start {
        SlotSumUpdate(|s.threads|, iters, s.i, s.threads, t, s'.threads[t]);
        RankSumUpdate(iters, s.i, s.threads, t, s'.threads[t]);
      }
    }
  }

  /** The state after `n` accesses of a schedule. */
  function StateAt(kind: Kind, iters: nat, s: State, schedule: nat -> nat, n: nat): State {
    if n == 0 then s
    else
      var prev := StateAt(kind, iters, s, schedule, n - 1);
      if Enabled(prev, schedule(n - 1)) then Next(kind, iters, prev, schedule(n - 1)) else prev
  }

  /** No fairness is needed: a scheduler that always picks some thread still in its loop reaches
      the end of all the loops (or a signed overflow), whatever it picks. */
  lemma EveryScheduleHalts(kind: Kind, iters: nat, s: State, schedule: nat -> nat)
    requires forall n: nat ::
               || Halted(StateAt(kind, iters, s, schedule, n))
               || Enabled(StateAt(kind, iters, s, schedule, n), schedule(n))
    ensures exists n: nat :: Halted(StateAt(kind, iters, s, schedule, n))
  {
    HaltsFrom(kind, iters, s, schedule, 0);
  }

  lemma {:induction false} HaltsFrom(kind: Kind, iters: nat, s: State, schedule: nat -> nat, n: nat)
    requires forall m: nat ::
               || Halted(StateAt(kind, iters, s, schedule, m))
               || Enabled(StateAt(kind, iters, s, schedule, m), schedule(m))
    ensures exists m: nat :: Halted(StateAt(kind, iters, s, schedule, m))
    decreases !StateAt(kind, iters, s, schedule, n).overflowed,
              Unstarted(StateAt(kind, iters, s, schedule, n).threads),
              Potential(iters, StateAt(kind, iters, s, schedule, n)),
              RankSum(iters, StateAt(kind, iters, s, schedule, n).i, StateAt(kind, iters, s, schedule, n).threads)
  {
    var now := StateAt(kind, iters, s, schedule, n);
    if !Halted(now) {
      EveryStepDescends(kind, iters, now, schedule(n));
      assert StateAt(kind, iters, s, schedule, n + 1) == Next(kind, iters, now, schedule(n));
      HaltsFrom(kind, iters, s, schedule, n + 1);
    }
  }

  // ---- What holds when the loops are over ----

  /** The threads that have finished a body whose increment of i is still to be stored. */
  function Pending(threads: seq<Thread>): (p: nat)
  {
    if threads == [] then 0
    else
      var last := threads[|threads| - 1];
      Pending(threads[..|threads| - 1]) + if last.ReadI? || last.WriteI? then 1 else 0
  }

  lemma {:induction false} PendingUpdate(threads: seq<Thread>, t: nat, th: Thread)
    requires t < |threads|
    ensures Pending(threads[t := th]) == Pending(threads)
              - (if threads[t].ReadI? || threads[t].WriteI? then 1 else 0) + if th.ReadI? || th.WriteI? then 1 else 0
  {
    var n := |threads| - 1;
    if t == n {
      assert threads[t := th][..n] == threads[..n];
    } else {
      assert threads[t := th][..n] == threads[..n][t := th];
      PendingUpdate(threads[..n], t, th);
    }
  }

  lemma {:induction false} NonePending(threads: seq<Thread>)
    requires forall t :: 0 <= t < |threads| ==> !threads[t].ReadI? && !threads[t].WriteI?
    ensures Pending(threads) == 0
  {
    if threads != [] {
      NonePending(threads[..|threads| - 1]);
    }
  }

  ghost predicate Init(s: State) {
    && |s.threads| > 0 && s.sharedData == 0 && s.adds == 0 && !s.overflowed
    && forall t :: 0 <= t < |s.threads| ==> s.threads[t] == Start
  }

  ghost predicate SomeStarted(threads: seq<Thread>) {
    exists t :: 0 <= t < |threads| && threads[t] != Start
  }

  /** Once a thread has reset i, every value of i, stored or held, was paid for by finished bodies. */
  ghost predicate PaidFor(s: State) {
    && Pending(s.threads) <= s.adds
    && (SomeStarted(s.threads) ==> s.i + Pending(s.threads) <= s.adds)
    && forall t :: 0 <= t < |s.threads| && s.threads[t].WriteI? ==> s.threads[t].value + Pending(s.threads) <= s.adds
  }

  ghost predicate Counted(kind: Kind, s: State) {
    && (kind == Atomic ==> s.sharedData == Wrap(s.adds))
    && (kind == Plain ==> s.sharedData <= s.adds)
    && (forall t :: 0 <= t < |s.threads| && s.threads[t].WriteData? ==> kind == Plain && s.threads[t].data <= s.adds)
  }

  ghost predicate Inv(kind: Kind, iters: nat, s: State) {
    && |s.threads| > 0
    && (AllDone(s.threads) ==> s.i >= iters)
    && (s.overflowed ==> s.adds >= INT_MAX)
    && PaidFor(s)
    && Counted(kind, s)
  }

  lemma InitInv(kind: Kind, iters: nat, s: State)
    requires Init(s)
    ensures Inv(kind, iters, s)
  {
    NonePending(s.threads);
    assert s.threads[0] == Start;
  }

  lemma NextPaidFor(kind: Kind, iters: nat, s: State, t: nat)
    requires Enabled(s, t) && PaidFor(s)
    ensures PaidFor(Next(kind, iters, s, t))
  {
    var s' := Next(kind, iters, s, t);
    PendingUpdate(s.threads, t, s'.threads[t]);
    assert s.threads[t] != Start ==> SomeStarted(s.threads);
    assert s'.threads == s.threads[t := s'.threads[t]];
    forall u | 0 <= u < |s'.threads| && s'.threads[u].WriteI?
      ensures s'.threads[u].value + Pending(s'.threads) <= s'.adds
    {
      if u != t {
        assert s.threads[u] == s'.threads[u];
      }
    }
  }

  lemma NextInv(kind: Kind, iters: nat, s: State, t: nat)
    requires Enabled(s, t) && Inv(kind, iters, s)
    ensures Inv(kind, iters, Next(kind, iters, s, t))
  {
    var s' := Next(kind, iters, s, t);
    NextPaidFor(kind, iters, s, t);
    assert s'.threads[t] == Done ==> s.threads[t] == Test && s.i >= iters;
  }

  lemma {:induction false} InvAt(kind: Kind, iters: nat, s: State, schedule: nat -> nat, n: nat)
    requires Init(s)
    ensures Inv(kind, iters, StateAt(kind, iters, s, schedule, n))
  {
    if n == 0 {
      InitInv(kind, iters, s);
    } else {
      InvAt(kind, iters, s, schedule, n - 1);
      var prev := StateAt(kind, iters, s, schedule, n - 1);
      if Enabled(prev, schedule(n - 1)) {
        NextInv(kind, iters, prev, schedule(n - 1));
      }
    }
  }

  /** With every thread out of its loop, whatever the interleaving was: `i` has reached the bound,
      at least `iters` bodies ran, the atomic counter is their number (in 32 bits), and the plain
      counter never exceeds it. */
  lemma CountersAtExit(kind: Kind, iters: nat, s: State, schedule: nat -> nat, n: nat)
    requires Init(s)
    requires AllDone(StateAt(kind, iters, s, schedule, n).threads)
    ensures var e := StateAt(kind, iters, s, schedule, n);
            && e.i >= iters && e.adds >= iters
            && (kind == Atomic ==> e.sharedData == Wrap(e.adds))
            && (kind == Atomic && e.adds <= INT_MAX ==> e.sharedData == e.adds >= iters)
            && (kind == Plain ==> e.sharedData <= e.adds)
  {
    InvAt(kind, iters, s, schedule, n);
    var e := StateAt(kind, iters, s, schedule, n);
    NonePending(e.threads);
    assert e.threads[0] != Start;
  }

  /** A schedule that runs fewer than 2^31 - 1 loop bodies never overflows an int, so by
      `EveryScheduleHalts` it ends with every thread out of its loop. */
  lemma OverflowNeedsManyBodies(kind: Kind, iters: nat, s: State, schedule: nat -> nat, n: nat)
    requires Init(s)
    ensures var e := StateAt(kind, iters, s, schedule, n);
            e.adds < INT_MAX ==> !e.overflowed && (Halted(e) ==> AllDone(e.threads))
  {
    InvAt(kind, iters, s, schedule, n);
  }

  /** Where a thread that runs alone stands: nothing is ever lost or repeated. */
  ghost predicate InStep(iters: nat, s: State) {
    && |s.threads| == 1 && !s.overflowed
    && match s.threads[0]
       case Start => s.adds == 0 && s.sharedData == 0
       case Test => s.adds == s.i == s.sharedData <= iters
       case Body => s.adds == s.i == s.sharedData < iters
       case WriteData(data) => data == s.adds == s.i == s.sharedData < iters
       case ReadI => s.adds == s.sharedData == s.i + 1 <= iters
       case WriteI(value) => value == s.i && s.adds == s.sharedData == s.i + 1 <= iters
       case Done => s.adds == s.i == s.sharedData == iters
  }

  /** A thread that runs alone leaves its loop with i and both counters exactly at the bound. */
  lemma {:induction false} AloneIsExact(kind: Kind, iters: nat, s: State, schedule: nat -> nat, n: nat)
    requires Init(s) && |s.threads| == 1 && iters <= INT_MAX
    ensures InStep(iters, StateAt(kind, iters, s, schedule, n))
    ensures var e := StateAt(kind, iters, s, schedule, n);
            Halted(e) ==> e.i == e.adds == e.sharedData == iters
  {
    if n > 0 {
      AloneIsExact(kind, iters, s, schedule, n - 1);
    }
  }

  // ---- The module's own variables, updated in place ----

  class CoreThread {
    const kind: Kind
    const iters: nat
    var i: int
    var sharedData: int
    var threads: seq<Thread>
    var overflowed: bool
    ghost var adds: nat

    ghost function Snapshot(): State
      reads this
    {
      State(i, sharedData, threads, adds, overflowed)
    }

    /** The state `mod_init` leaves: the counter is reset, `i` is whatever its own loop left. */
    constructor (kind: Kind, iters: nat, k: nat, i: int)
      requires k > 0
      ensures this.kind == kind && this.iters == iters && Init(Snapshot()) && |threads| == k && this.i == i
    {
      this.kind, this.iters := kind, iters;
      this.i, sharedData, overflowed, adds := i, 0, false, 0;
      threads := seq(k, _ => Start);
    }

    /** Thread `t` makes its next memory access. */
    method Step(t: nat)
      requires Enabled(Snapshot(), t)
      modifies this
      ensures Snapshot() == Next(kind, iters, old(Snapshot()), t)
    {
      match threads[t] {
        case Start =>
          i := 0;
          threads := threads[t := Test];
        case Test =>
          threads := threads[t := if i < iters then Body else Done];
        case Body =>
          if kind == Atomic {
            sharedData, adds := Wrap(sharedData + 1), adds + 1;
            threads := threads[t := ReadI];
          } else {
            threads := threads[t := WriteData(sharedData)];
          }
        case WriteData(data) =>
          if data >= INT_MAX {
            overflowed := true;
          } else {
            sharedData, adds := data + 1, adds + 1;
            threads := threads[t := ReadI];
          }
        case ReadI =>
          threads := threads[t := WriteI(i)];
        case WriteI(value) =>
          if value >= INT_MAX {
            overflowed := true;
          } else {
            i := value + 1;
            threads := threads[t := Test];
          }
      }
    }

    /** Runs the threads under an arbitrary scheduler until none is left in its loop. */
    method RunThreads()
      requires Init(Snapshot())
      modifies this
      ensures Halted(Snapshot()) && |threads| == old(|threads|)
      ensures overflowed ==> adds >= INT_MAX
      ensures !overflowed ==> i >= iters && adds >= iters
      ensures !overflowed && kind == Atomic ==> sharedData == Wrap(adds)
      ensures !overflowed && kind == Plain ==> sharedData <= adds
    {
      InitInv(kind, iters, Snapshot());
      while exists t :: 0 <= t < |threads| && Enabled(State(i, sharedData, threads, 0, overflowed), t)
        invariant Inv(kind, iters, Snapshot()) && |threads| == old(|threads|)
        decreases !overflowed, Unstarted(threads), Potential(iters, Snapshot()), RankSum(iters, i, threads)
      {
        var t :| 0 <= t < |threads| && Enabled(State(i, sharedData, threads, 0, overflowed), t);
        NextInv(kind, iters, Snapshot(), t);
        EveryStepDescends(kind, iters, Snapshot(), t);
        Step(t);
      }
      if !overflowed {
        assert forall t :: 0 <= t < |threads| ==>
          Enabled(State(i, sharedData, threads, 0, overflowed), t) || threads[t] == Done;
        NonePending(threads);
        assert threads[0] != Start;
      }
    }
  }
}
