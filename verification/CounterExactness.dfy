/** When the plain counter of studios/studio8/core_thread.c counts the bodies run: in one run exactly
    when no store wrote back an outdated value, in all runs exactly when there is one thread or
    nothing to do. */
module CounterExactness {
  import opened SharedCounter

  // ---- One run ----

  /** The next access of thread `t` overwrites a counter that has moved on since the thread read it. */
  predicate StoresStale(s: State, t: nat) {
    && Enabled(s, t) && s.threads[t].WriteData?
    && s.threads[t].data < INT_MAX && s.threads[t].data != s.sharedData
  }

  /** The counter is never ahead of the bodies, and once it is behind, so is every value read from it. */
  ghost predicate Tight(s: State) {
    && s.sharedData <= s.adds
    && forall t :: 0 <= t < |s.threads| && s.threads[t].WriteData? ==>
         s.threads[t].data <= s.adds && (s.sharedData < s.adds ==> s.threads[t].data < s.adds)
  }

  lemma NextTight(iters: nat, s: State, t: nat)
    requires Tight(s) && Enabled(s, t)
    ensures var s' := Next(Plain, iters, s, t);
            Tight(s') && (s'.sharedData == s'.adds <==> s.sharedData == s.adds && !StoresStale(s, t))
  {
  }

  ghost predicate NoStaleStore(iters: nat, s: State, schedule: nat -> nat, n: nat) {
    forall m: nat :: m < n ==> !StoresStale(StateAt(Plain, iters, s, schedule, m), schedule(m))
  }

  lemma OneMoreStore(iters: nat, s: State, schedule: nat -> nat, n: nat)
    ensures NoStaleStore(iters, s, schedule, n + 1)
       <==> NoStaleStore(iters, s, schedule, n) && !StoresStale(StateAt(Plain, iters, s, schedule, n), schedule(n))
  {
    hide StateAt, StoresStale;
  }

  /** The counter equals the number of bodies run exactly when no store so far was stale: a lost
      update is never made up for. */
  lemma {:induction false} ExactUnlessStale(iters: nat, s: State, schedule: nat -> nat, n: nat)
    requires Init(s)
    ensures var e := StateAt(Plain, iters, s, schedule, n);
            Tight(e) && (e.sharedData == e.adds <==> NoStaleStore(iters, s, schedule, n))
  {
    if n > 0 {
      ExactUnlessStale(iters, s, schedule, n - 1);
      OneMoreStore(iters, s, schedule, n - 1);
      hide NoStaleStore, Next, Tight;
      var prev := StateAt(Plain, iters, s, schedule, n - 1);
      if Enabled(prev, schedule(n - 1)) {
        NextTight(iters, prev, schedule(n - 1));
      }
    }
  }

  // ---- Nothing to do ----

  lemma {:induction false} NoBodyRuns(s: State, schedule: nat -> nat, n: nat)
    requires Init(s)
    ensures var e := StateAt(Plain, 0, s, schedule, n);
            && e.sharedData == 0 && e.adds == 0 && (SomeStarted(e.threads) ==> e.i == 0)
            && forall t :: 0 <= t < |e.threads| ==> e.threads[t] in {Start, Test, Done}
  {
    if n > 0 {
      NoBodyRuns(s, schedule, n - 1);
    }
  }

  // ---- Several threads and something to do: a run that loses an update ----

  ghost predicate Reaches(iters: nat, s: State, e: State) {
    exists schedule: nat -> nat, n: nat :: StateAt(Plain, iters, s, schedule, n) == e
  }

  lemma ReachesSelf(iters: nat, s: State)
    ensures Reaches(iters, s, s)
  {
    assert StateAt(Plain, iters, s, k => 0, 0) == s;
  }

  lemma {:induction false} SameSchedule(iters: nat, s: State, schedule: nat -> nat, schedule': nat -> nat, n: nat)
    requires forall k: nat :: k < n ==> schedule(k) == schedule'(k)
    ensures StateAt(Plain, iters, s, schedule, n) == StateAt(Plain, iters, s, schedule', n)
  {
    if n > 0 {
      SameSchedule(iters, s, schedule, schedule', n - 1);
    }
  }

  lemma ReachesNext(iters: nat, s: State, now: State, t: nat)
    requires Reaches(iters, s, now) && Enabled(now, t)
    ensures Reaches(iters, s, Next(Plain, iters, now, t))
  {
    var schedule: nat -> nat, n: nat :| StateAt(Plain, iters, s, schedule, n) == now;
    var schedule' := (k: nat) => if k < n then schedule(k) else t;
    SameSchedule(iters, s, schedule, schedule', n);
    assert StateAt(Plain, iters, s, schedule', n + 1) == Next(Plain, iters, now, t);
  }

  /** Threads up to `j` have reset i; the others have not started. */
  function Started(k: nat, i: int, j: nat): State {
    State(if j == 0 then i else 0, 0, seq(k, t => if t < j then Test else Start), 0, false)
  }

  lemma {:induction false} AllStart(iters: nat, s: State, j: nat)
    requires Init(s) && j <= |s.threads|
    ensures Reaches(iters, s, Started(|s.threads|, s.i, j))
  {
    var k := |s.threads|;
    if j == 0 {
      ReachesSelf(iters, s);
      assert s == Started(k, s.i, 0);
    } else {
      AllStart(iters, s, j - 1);
      var now := Started(k, s.i, j - 1);
      ReachesNext(iters, s, now, j - 1);
      assert Next(Plain, iters, now, j - 1) == Started(k, s.i, j);
    }
  }

  /** The first two threads are under way, the others are about to test i. */
  function Threads(k: nat, first: Thread, second: Thread): seq<Thread> {
    seq(k, t => if t == 0 then first else if t == 1 then second else Test)
  }

  function Two(k: nat, i: int, data: int, first: Thread, second: Thread, adds: nat): State {
    State(i, data, Threads(k, first, second), adds, false)
  }

  lemma FirstMoves(iters: nat, s: State, k: nat, i: int, data: int, first: Thread, second: Thread, adds: nat)
    requires k >= 2 && first != Done && Reaches(iters, s, Two(k, i, data, first, second, adds))
    requires !Next(Plain, iters, Two(k, i, data, first, second, adds), 0).overflowed
    ensures var e := Next(Plain, iters, Two(k, i, data, first, second, adds), 0);
            Reaches(iters, s, Two(k, e.i, e.sharedData, e.threads[0], second, e.adds))
  {
    var now := Two(k, i, data, first, second, adds);
    ReachesNext(iters, s, now, 0);
    var e := Next(Plain, iters, now, 0);
    assert e.threads == Threads(k, e.threads[0], second);
  }

  lemma SecondMoves(iters: nat, s: State, k: nat, i: int, data: int, first: Thread, second: Thread, adds: nat)
    requires k >= 2 && second != Done && Reaches(iters, s, Two(k, i, data, first, second, adds))
    requires !Next(Plain, iters, Two(k, i, data, first, second, adds), 1).overflowed
    ensures var e := Next(Plain, iters, Two(k, i, data, first, second, adds), 1);
            Reaches(iters, s, Two(k, e.i, e.sharedData, first, e.threads[1], e.adds))
  {
    var now := Two(k, i, data, first, second, adds);
    ReachesNext(iters, s, now, 1);
    var e := Next(Plain, iters, now, 1);
    assert e.threads == Threads(k, first, e.threads[1]);
  }

  /** Both threads read 0 and store 1, in the counter and then in i. */
  lemma LoseOne(iters: nat, s: State, k: nat)
    requires k >= 2 && iters >= 1 && Reaches(iters, s, Two(k, 0, 0, Test, Test, 0))
    ensures Reaches(iters, s, Two(k, 1, 1, Test, Test, 2))
  {
    hide Reaches;
    FirstMoves(iters, s, k, 0, 0, Test, Test, 0);
    FirstMoves(iters, s, k, 0, 0, Body, Test, 0);
    SecondMoves(iters, s, k, 0, 0, WriteData(0), Test, 0);
    SecondMoves(iters, s, k, 0, 0, WriteData(0), Body, 0);
    FirstMoves(iters, s, k, 0, 0, WriteData(0), WriteData(0), 0);
    SecondMoves(iters, s, k, 0, 1, ReadI, WriteData(0), 1);
    FirstMoves(iters, s, k, 0, 1, ReadI, ReadI, 2);
    SecondMoves(iters, s, k, 0, 1, WriteI(0), ReadI, 2);
    FirstMoves(iters, s, k, 0, 1, WriteI(0), WriteI(0), 2);
    SecondMoves(iters, s, k, 1, 1, Test, WriteI(0), 2);
  }

  /** The first thread alone takes i and the counter to the bound. */
  lemma {:induction false} FirstRunsOn(iters: nat, s: State, k: nat, v: nat)
    requires k >= 2 && 1 <= v <= iters <= INT_MAX && Reaches(iters, s, Two(k, 1, 1, Test, Test, 2))
    ensures Reaches(iters, s, Two(k, v, v, Test, Test, v + 1))
  {
    hide Reaches;
    if v > 1 {
      var w := v - 1;
      FirstRunsOn(iters, s, k, w);
      FirstMoves(iters, s, k, w, w, Test, Test, v);
      FirstMoves(iters, s, k, w, w, Body, Test, v);
      FirstMoves(iters, s, k, w, w, WriteData(w), Test, v);
      FirstMoves(iters, s, k, w, v, ReadI, Test, v + 1);
      FirstMoves(iters, s, k, w, v, WriteI(w), Test, v + 1);
    }
  }

  /** Threads up to `j` have seen that i has reached the bound. */
  function Ended(k: nat, iters: nat, j: nat): State {
    State(iters, iters, seq(k, t => if t < j then Done else Test), iters + 1, false)
  }

  lemma {:induction false} AllEnd(iters: nat, s: State, k: nat, j: nat)
    requires j <= k && Reaches(iters, s, Ended(k, iters, 0))
    ensures Reaches(iters, s, Ended(k, iters, j))
  {
    if j > 0 {
      AllEnd(iters, s, k, j - 1);
      var now := Ended(k, iters, j - 1);
      ReachesNext(iters, s, now, j - 1);
      assert Next(Plain, iters, now, j - 1) == Ended(k, iters, j);
    }
  }

  /** Several threads with something to do can always lose an update: some schedule ends with one body
      more than the counter shows. */
  lemma PlainCounterCanLose(iters: nat, s: State) returns (schedule: nat -> nat, n: nat)
    requires Init(s) && |s.threads| >= 2 && 1 <= iters <= INT_MAX
    ensures var e := StateAt(Plain, iters, s, schedule, n);
            AllDone(e.threads) && e.sharedData == iters && e.adds == iters + 1
  {
    var k := |s.threads|;
    AllStart(iters, s, k);
    assert Started(k, s.i, k) == Two(k, 0, 0, Test, Test, 0);
    LoseOne(iters, s, k);
    FirstRunsOn(iters, s, k, iters);
    assert Two(k, iters, iters, Test, Test, iters + 1) == Ended(k, iters, 0);
    AllEnd(iters, s, k, k);
    schedule, n :| StateAt(Plain, iters, s, schedule, n) == Ended(k, iters, k);
  }

  /** Every schedule that ends all loops leaves the number of bodies in the plain counter if and only
      if there is one thread or the loop has no iterations. */
  lemma PlainIsExactFor(iters: nat, s: State)
    requires Init(s) && iters <= INT_MAX
    ensures (forall schedule: nat -> nat, n: nat ::
               AllDone(StateAt(Plain, iters, s, schedule, n).threads) ==>
                 StateAt(Plain, iters, s, schedule, n).sharedData == StateAt(Plain, iters, s, schedule, n).adds)
       <==> |s.threads| == 1 || iters == 0
  {
    if iters == 0 || |s.threads| == 1 {
      forall schedule: nat -> nat, n: nat | AllDone(StateAt(Plain, iters, s, schedule, n).threads)
        ensures StateAt(Plain, iters, s, schedule, n).sharedData == StateAt(Plain, iters, s, schedule, n).adds
      {
        if iters == 0 {
          NoBodyRuns(s, schedule, n);
        } else {
          AloneIsExact(Plain, iters, s, schedule, n);
        }
      }
    } else {
      var schedule, n := PlainCounterCanLose(iters, s);
    }
  }
}
