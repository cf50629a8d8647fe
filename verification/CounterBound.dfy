/** How many loop bodies the threads of studios/studio8 can run: the potential that proves their loops
    finite also pays for every body. Few threads and iterations therefore never overflow an int. */
module CounterBound {
  import opened Arithmetic
  import opened SharedCounter

  /** The potential of k threads is never higher than just after a thread has reset i. */
  function MaxPotential(k: nat, iters: nat): nat {
    (k + 1) * Pow(k + 2, iters)
  }

  function BodyBound(k: nat, iters: nat): nat {
    (k + 1) * (k * (MaxPotential(k, iters) + 1))
  }

  // ---- The potential is bounded once i has been reset ----

  ghost predicate LevelsOk(s: State) {
    SomeStarted(s.threads) ==>
      s.i >= 0 && forall t :: 0 <= t < |s.threads| && s.threads[t].WriteI? ==> s.threads[t].value >= 0
  }

  lemma {:induction false} PowMonotone(b: nat, e: nat, f: nat)
    requires b >= 1 && e <= f
    ensures Pow(b, e) <= Pow(b, f)
  {
    if e < f {
      PowMonotone(b, e, f - 1);
      MulMonotone(1, b, Pow(b, f - 1));
    }
  }

  lemma {:induction false} SlotSumBound(k: nat, iters: nat, i: int, threads: seq<Thread>)
    requires i >= 0 && forall t :: 0 <= t < |threads| && threads[t].WriteI? ==> threads[t].value >= 0
    ensures SlotSum(k, iters, i, threads) <= |threads| * Pow(k + 2, iters)
  {
    if threads != [] {
      var n := |threads| - 1;
      var level := Slot(i, threads[n]);
      SlotSumBound(k, iters, i, threads[..n]);
      PowMonotone(k + 2, if level < iters then iters - level else 0, iters);
      OneMore(n, Pow(k + 2, iters));
    }
  }

  lemma PotentialBound(iters: nat, s: State)
    requires LevelsOk(s) && SomeStarted(s.threads)
    ensures Potential(iters, s) <= MaxPotential(|s.threads|, iters)
  {
    var k := |s.threads|;
    SlotSumBound(k, iters, s.i, s.threads);
    PowMonotone(k + 2, if s.i < iters then iters - s.i else 0, iters);
    OneMore(k, Pow(k + 2, iters));
  }

  lemma NextLevelsOk(kind: Kind, iters: nat, s: State, t: nat)
    requires Enabled(s, t) && LevelsOk(s)
    ensures LevelsOk(Next(kind, iters, s, t)) && SomeStarted(Next(kind, iters, s, t).threads)
    ensures s.threads[t] != Start ==> SomeStarted(s.threads)
  {
    var s' := Next(kind, iters, s, t);
    assert s'.threads == s.threads[t := s'.threads[t]] && s'.threads[t] != Start;
    if s.threads[t] == Start && !SomeStarted(s.threads) {
      assert forall u :: 0 <= u < |s.threads| && u != t ==> s'.threads[u] == s.threads[u] == Start;
    } else {
      assert forall u :: 0 <= u < |s.threads| && u != t ==> s'.threads[u] == s.threads[u];
    }
  }

  // ---- The bodies that can finish before i is lowered again ----

  function Ready(iters: nat, i: int, th: Thread): nat {
    if (th.Test? && i < iters) || th.Body? || th.WriteData? then 1 else 0
  }

  function ReadySum(iters: nat, i: int, threads: seq<Thread>): (r: nat)
    ensures r <= |threads|
  {
    if threads == [] then 0
    else ReadySum(iters, i, threads[..|threads| - 1]) + Ready(iters, i, threads[|threads| - 1])
  }

  lemma {:induction false} ReadySumUpdate(iters: nat, i: int, threads: seq<Thread>, t: nat, th: Thread)
    requires t < |threads|
    ensures ReadySum(iters, i, threads[t := th])
         == ReadySum(iters, i, threads) - Ready(iters, i, threads[t]) + Ready(iters, i, th)
  {
    var n := |threads| - 1;
    if t == n {
      assert threads[t := th][..n] == threads[..n];
    } else {
      assert threads[t := th][..n] == threads[..n][t := th];
      ReadySumUpdate(iters, i, threads[..n], t, th);
    }
  }

  lemma {:induction false} ReadySumPastBound(iters: nat, i: int, j: int, threads: seq<Thread>)
    requires j >= iters
    ensures ReadySum(iters, j, threads) <= ReadySum(iters, i, threads)
  {
    if threads != [] {
      ReadySumPastBound(iters, i, j, threads[..|threads| - 1]);
    }
  }

  // ---- Every body is paid for ----

  /** Threads that have not started yet bring a full potential each. */
  ghost function Reserve(iters: nat, s: State): nat {
    MulMonotone(0, Unstarted(s.threads), MaxPotential(|s.threads|, iters) + 1);
    Unstarted(s.threads) * (MaxPotential(|s.threads|, iters) + 1)
    + if SomeStarted(s.threads) then Potential(iters, s) else 0
  }

  /** One unit of the reserve pays for a body of every thread and one more. */
  ghost function Fuel(iters: nat, s: State): nat {
    MulMonotone(0, Reserve(iters, s), |s.threads| + 1);
    (|s.threads| + 1) * Reserve(iters, s) + ReadySum(iters, s.i, s.threads)
  }

  lemma ReserveSpent(iters: nat, s: State, s': State)
    requires |s'.threads| == |s.threads| && Reserve(iters, s') < Reserve(iters, s)
    ensures Fuel(iters, s') <= Fuel(iters, s)
  {
    hide Reserve, ReadySum;
    SpendOne(|s.threads|, Reserve(iters, s'), Reserve(iters, s));
  }

  lemma SpendOne(k: nat, x: nat, y: nat)
    requires x < y
    ensures (k + 1) * x + k < (k + 1) * y
  {
    MulMonotone(x + 1, y, k + 1);
  }

  lemma StartSpends(kind: Kind, iters: nat, s: State, t: nat)
    requires Enabled(s, t) && LevelsOk(s) && s.threads[t] == Start
    ensures Reserve(iters, Next(kind, iters, s, t)) < Reserve(iters, s)
  {
    var s' := Next(kind, iters, s, t);
    NextLevelsOk(kind, iters, s, t);
    PotentialBound(iters, s');
    UnstartedUpdate(s.threads, t, Test);
    OneMore(Unstarted(s'.threads), MaxPotential(|s.threads|, iters) + 1);
  }

  /** A store to i: below the bound it lowers the reserve, past it no thread becomes ready. */
  lemma StoreISpends(kind: Kind, iters: nat, s: State, t: nat)
    requires Enabled(s, t) && LevelsOk(s) && s.threads[t].WriteI? && !Next(kind, iters, s, t).overflowed
    ensures var s' := Next(kind, iters, s, t);
            || Reserve(iters, s') < Reserve(iters, s)
            || (s.threads[t].value >= iters && Reserve(iters, s') == Reserve(iters, s))
  {
    var s' := Next(kind, iters, s, t);
    var value := s.threads[t].value;
    NextLevelsOk(kind, iters, s, t);
    UnstartedUpdate(s.threads, t, Test);
    hide Potential, Unstarted, MaxPotential, SomeStarted, LevelsOk, Weight;
    if value < iters {
      LowStoreBurnsPotential(iters, s, t, value);
    } else {
      HighStoreKeepsPotential(iters, s, t, value);
    }
  }

  lemma StoreIPays(kind: Kind, iters: nat, s: State, t: nat)
    requires Enabled(s, t) && LevelsOk(s) && s.threads[t].WriteI? && !Next(kind, iters, s, t).overflowed
    ensures var s' := Next(kind, iters, s, t); s'.adds == s.adds && Fuel(iters, s') <= Fuel(iters, s)
  {
    var s' := Next(kind, iters, s, t);
    StoreISpends(kind, iters, s, t);
    hide Reserve, LevelsOk, ReadySum;
    if Reserve(iters, s') < Reserve(iters, s) {
      ReserveSpent(iters, s, s');
    } else {
      ReadySumPastBound(iters, s.i, s'.i, s.threads);
      ReadySumUpdate(iters, s'.i, s.threads, t, Test);
    }
  }

  /** Apart from resets and stores to i, an access leaves i and every slot as they are. */
  lemma OtherKeepsSlots(kind: Kind, iters: nat, s: State, t: nat)
    requires Enabled(s, t) && s.threads[t] != Start && !s.threads[t].WriteI?
    ensures var s' := Next(kind, iters, s, t);
            && s'.i == s.i && |s'.threads| == |s.threads| && s'.threads == s.threads[t := s'.threads[t]]
            && s'.threads[t] != Start && Slot(s.i, s'.threads[t]) == Slot(s.i, s.threads[t])
  {
  }

  lemma OtherKeepsReserve(kind: Kind, iters: nat, s: State, t: nat)
    requires Enabled(s, t) && LevelsOk(s) && s.threads[t] != Start && !s.threads[t].WriteI?
    ensures Reserve(iters, Next(kind, iters, s, t)) == Reserve(iters, s)
  {
    hide Next, SlotSum, Unstarted, MaxPotential, SomeStarted, LevelsOk, Weight, Slot;
    var s' := Next(kind, iters, s, t);
    NextLevelsOk(kind, iters, s, t);
    OtherKeepsSlots(kind, iters, s, t);
    UnstartedUpdate(s.threads, t, s'.threads[t]);
    SlotSumUpdate(|s.threads|, iters, s.i, s.threads, t, s'.threads[t]);
  }

  lemma OtherStepPays(kind: Kind, iters: nat, s: State, t: nat)
    requires Enabled(s, t) && LevelsOk(s) && s.threads[t] != Start && !s.threads[t].WriteI?
    ensures var s' := Next(kind, iters, s, t); s'.adds + Fuel(iters, s') <= s.adds + Fuel(iters, s)
  {
    var s' := Next(kind, iters, s, t);
    OtherKeepsReserve(kind, iters, s, t);
    hide Reserve, LevelsOk, ReadySum, Wrap;
    ReadySumUpdate(iters, s.i, s.threads, t, s'.threads[t]);
  }

  /** No access raises bodies run plus fuel left. */
  lemma EveryStepPays(kind: Kind, iters: nat, s: State, t: nat)
    requires Enabled(s, t) && LevelsOk(s)
    ensures var s' := Next(kind, iters, s, t); LevelsOk(s') && s'.adds + Fuel(iters, s') <= s.adds + Fuel(iters, s)
  {
    NextLevelsOk(kind, iters, s, t);
    if s.threads[t] == Start {
      StartSpends(kind, iters, s, t);
      ReserveSpent(iters, s, Next(kind, iters, s, t));
    } else if s.threads[t].WriteI? {
      if !Next(kind, iters, s, t).overflowed {
        StoreIPays(kind, iters, s, t);
      }
    } else {
      OtherStepPays(kind, iters, s, t);
    }
  }

  lemma {:induction false} AllUnstarted(threads: seq<Thread>, iters: nat, i: int)
    requires forall t :: 0 <= t < |threads| ==> threads[t] == Start
    ensures Unstarted(threads) == |threads| && ReadySum(iters, i, threads) == 0
  {
    if threads != [] {
      AllUnstarted(threads[..|threads| - 1], iters, i);
    }
  }

  lemma {:induction false} FuelAt(kind: Kind, iters: nat, s: State, schedule: nat -> nat, n: nat)
    requires Init(s)
    ensures var e := StateAt(kind, iters, s, schedule, n);
            LevelsOk(e) && e.adds + Fuel(iters, e) <= BodyBound(|s.threads|, iters)
  {
    if n == 0 {
      AllUnstarted(s.threads, iters, s.i);
    } else {
      hide LevelsOk, Fuel, BodyBound, Next;
      FuelAt(kind, iters, s, schedule, n - 1);
      var prev := StateAt(kind, iters, s, schedule, n - 1);
      if Enabled(prev, schedule(n - 1)) {
        EveryStepPays(kind, iters, prev, schedule(n - 1));
      }
    }
  }

  /** In every run, under any schedule, k threads finish at most BodyBound(k, iters) bodies. */
  lemma BodiesAreBounded(kind: Kind, iters: nat, s: State, schedule: nat -> nat, n: nat)
    requires Init(s)
    ensures StateAt(kind, iters, s, schedule, n).adds <= BodyBound(|s.threads|, iters)
  {
    FuelAt(kind, iters, s, schedule, n);
  }

  /** If that bound is an int, no int overflows, and every schedule that keeps picking threads still in
      their loop brings all of them to its end. */
  lemma SmallLoopsFinish(kind: Kind, iters: nat, s: State, schedule: nat -> nat)
    requires Init(s) && BodyBound(|s.threads|, iters) < INT_MAX
    requires forall n: nat ::
               || Halted(StateAt(kind, iters, s, schedule, n))
               || Enabled(StateAt(kind, iters, s, schedule, n), schedule(n))
    ensures forall n: nat :: !StateAt(kind, iters, s, schedule, n).overflowed
    ensures exists n: nat :: AllDone(StateAt(kind, iters, s, schedule, n).threads)
  {
    hide BodyBound, StateAt;
    forall n: nat
      ensures !StateAt(kind, iters, s, schedule, n).overflowed
    {
      BodiesAreBounded(kind, iters, s, schedule, n);
      OverflowNeedsManyBodies(kind, iters, s, schedule, n);
    }
    EveryScheduleHalts(kind, iters, s, schedule);
  }
}
