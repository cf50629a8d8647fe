/** What the single accesses of the threads in studios/studio8 amount to over a run: an increment is a
    read and, any time later, a blind write of one more than was read. */
module CounterAccesses {
  import opened SharedCounter

  /** Access number `n` of the schedule is one of thread `t`. */
  predicate Moves(kind: Kind, iters: nat, s: State, schedule: nat -> nat, n: nat, t: nat) {
    schedule(n) == t && Enabled(StateAt(kind, iters, s, schedule, n), t)
  }

  /** Thread `t` makes no access from `m` up to `n`. */
  ghost predicate Pauses(schedule: nat -> nat, m: nat, n: nat, t: nat) {
    forall k: nat :: m <= k < n ==> schedule(k) != t
  }

  function Pc(kind: Kind, iters: nat, s: State, schedule: nat -> nat, n: nat, t: nat): Thread
    requires t < |s.threads|
  {
    ThreadsKept(kind, iters, s, schedule, n);
    StateAt(kind, iters, s, schedule, n).threads[t]
  }

  lemma {:induction false} ThreadsKept(kind: Kind, iters: nat, s: State, schedule: nat -> nat, n: nat)
    ensures |StateAt(kind, iters, s, schedule, n).threads| == |s.threads|
  {
    if n > 0 {
      ThreadsKept(kind, iters, s, schedule, n - 1);
    }
  }

  /** Only a thread's own accesses move it on. */
  lemma {:induction false} PausedThread(kind: Kind, iters: nat, s: State, schedule: nat -> nat, m: nat, n: nat, t: nat)
    requires t < |s.threads| && m <= n && Pauses(schedule, m, n, t)
    ensures Pc(kind, iters, s, schedule, n, t) == Pc(kind, iters, s, schedule, m, t)
    decreases n - m
  {
    if m < n {
      PausedThread(kind, iters, s, schedule, m, n - 1, t);
      ThreadsKept(kind, iters, s, schedule, n - 1);
    }
  }

  /** `i++` of a thread: it reads at access m and writes at its next access n. Whatever others have
      stored in between, i becomes one more than it was at m. */
  lemma IncrementIsBlind(kind: Kind, iters: nat, s: State, schedule: nat -> nat, m: nat, n: nat, t: nat)
    requires t < |s.threads| && m < n && Pauses(schedule, m + 1, n, t)
    requires Moves(kind, iters, s, schedule, m, t) && Pc(kind, iters, s, schedule, m, t) == ReadI
    requires Moves(kind, iters, s, schedule, n, t)
    ensures var before, after := StateAt(kind, iters, s, schedule, m), StateAt(kind, iters, s, schedule, n + 1);
            && after.overflowed == (before.i >= INT_MAX)
            && (!after.overflowed ==> after.i == before.i + 1 && Pc(kind, iters, s, schedule, n + 1, t) == Test)
  {
    ThreadsKept(kind, iters, s, schedule, m);
    ThreadsKept(kind, iters, s, schedule, n);
    PausedThread(kind, iters, s, schedule, m + 1, n, t);
  }

  /** `shared_data++` of a thread on the plain counter, in the same way. */
  lemma PlainBodyIsBlind(iters: nat, s: State, schedule: nat -> nat, m: nat, n: nat, t: nat)
    requires t < |s.threads| && m < n && Pauses(schedule, m + 1, n, t)
    requires Moves(Plain, iters, s, schedule, m, t) && Pc(Plain, iters, s, schedule, m, t) == Body
    requires Moves(Plain, iters, s, schedule, n, t)
    ensures var before, after := StateAt(Plain, iters, s, schedule, m), StateAt(Plain, iters, s, schedule, n + 1);
            && after.overflowed == (before.sharedData >= INT_MAX)
            && (!after.overflowed ==>
                  && after.sharedData == before.sharedData + 1
                  && after.adds == StateAt(Plain, iters, s, schedule, n).adds + 1
                  && Pc(Plain, iters, s, schedule, n + 1, t) == ReadI)
  {
    ThreadsKept(Plain, iters, s, schedule, m);
    ThreadsKept(Plain, iters, s, schedule, n);
    PausedThread(Plain, iters, s, schedule, m + 1, n, t);
  }

  /** The other accesses: a reset stores 0, a test reads i and decides, an atomic body adds 1 at once,
      and a store to i or to the counter is the only other way in which either changes. */
  lemma OtherAccesses(kind: Kind, iters: nat, s: State, t: nat)
    requires Enabled(s, t)
    ensures var s', th, th' := Next(kind, iters, s, t), s.threads[t], Next(kind, iters, s, t).threads[t];
            && (th == Start ==> s'.i == 0 && th' == Test)
            && (th == Test ==> th' == if s.i < iters then Body else Done)
            && (th == Body && kind == Atomic ==>
                  && (s'.sharedData - s.sharedData - 1) % 0x1_0000_0000 == 0 && s'.adds == s.adds + 1 && th' == ReadI)
            && (s'.i != s.i ==> th == Start || th.WriteI?)
            && (s'.sharedData != s.sharedData || s'.adds != s.adds ==> (th == Body && kind == Atomic) || th.WriteData?)
            && (forall u :: 0 <= u < |s.threads| && u != t ==> s'.threads[u] == s.threads[u])
  {
  }
}
