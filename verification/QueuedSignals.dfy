/** The queued real-time signals of studios/studio20: sender.c queues n signals with value 0 and one
    with value 1, receiver.c counts the zeros until the 1 arrives. Signals of one number are
    delivered in the order they were queued (section 2.4.2 of POSIX.1-2017 System Interfaces), and
    sigqueue fails, unnoticed by the sender, when the pending limit is reached. */
module QueuedSignals {
  datatype Sender =
    | Check            // is the number of signals within the limit?
    | Send(i: nat)     // the loop, before signal number i
    | SendFinal        // the signal with value 1
    | Finished
    | Refused

  datatype Printed = Nothing | Count(count: nat)

  /** `accepted` counts the zeros that sigqueue took, `finalLost` tells that the 1 was not taken. */
  datatype State = State(sender: Sender, queue: seq<int>, count: nat, done: bool, printed: Printed,
                         accepted: nat, finalLost: bool)

  /** `others` signals of the same user are pending elsewhere when the sender runs on. */
  datatype Move = SenderMove(others: nat) | Deliver | Print

  const START := State(Check, [], 0, false, Nothing, 0, false)

  /** The receiver prints once it has left its loop, and takes no more signals after that. */
  predicate Enabled(s: State, m: Move) {
    match m
    case SenderMove(_) => !s.sender.Finished? && !s.sender.Refused?
    case Deliver => s.queue != [] && s.printed == Nothing
    case Print => s.done && s.printed == Nothing
  }

  function Next(n: nat, limit: nat, s: State, m: Move): State
    requires Enabled(s, m)
  {
    match m
    case SenderMove(others) => (
      var room := |s.queue| + others < limit;
      match s.sender
      case Check => s.(sender := if n > limit then Refused else Send(0))
      case Send(i) =>
        if i >= n then s.(sender := SendFinal)
        else if room then s.(sender := Send(i + 1), queue := s.queue + [0], accepted := s.accepted + 1)
        else s.(sender := Send(i + 1))
      case SendFinal =>
        if room then s.(sender := Finished, queue := s.queue + [1]) else s.(sender := Finished, finalLost := true))
    case Deliver =>
      // sig_handler
      var s' := s.(queue := s.queue[1..]);
      if s.queue[0] == 0 then s'.(count := s.count + 1)
      else if s.queue[0] == 1 then s'.(done := true)
      else s'
    case Print => s.(printed := Count(s.count))
  }

  // ---- No zero is lost between the queue and the count ----

  predicate AllZero(q: seq<int>) {
    forall k :: 0 <= k < |q| ==> q[k] == 0
  }

  /** While the 1 is not queued there are only zeros; when it is, it stands last. */
  ghost predicate QueueOk(s: State) {
    if s.sender != Finished || s.finalLost || s.done then AllZero(s.queue)
    else s.queue != [] && AllZero(s.queue[..|s.queue| - 1]) && s.queue[|s.queue| - 1] == 1
  }

  function ZerosPending(s: State): nat {
    if s.sender != Finished || s.finalLost || s.queue == [] then |s.queue| else |s.queue| - 1
  }

  ghost predicate Inv(n: nat, s: State) {
    && QueueOk(s)
    && s.accepted == s.count + ZerosPending(s)
    && (s.done ==> s.sender == Finished && !s.finalLost && s.queue == [])
    && (s.finalLost ==> s.sender == Finished)
    && (s.printed.Count? ==> s.done && s.printed.count == s.count)
    && (s.sender.Send? ==> s.sender.i <= n && s.accepted <= s.sender.i)
    && (s.sender.Check? || s.sender.Refused? ==> s.accepted == 0)
    && s.accepted <= n
  }

  lemma DeliverInv(n: nat, limit: nat, s: State)
    requires Inv(n, s) && Enabled(s, Deliver)
    ensures Inv(n, Next(n, limit, s, Deliver))
  {
    if s.sender == Finished && !s.finalLost && |s.queue| > 1 {
      var rest := s.queue[1..];
      assert rest[..|rest| - 1] == s.queue[..|s.queue| - 1][1..];
      assert s.queue[0] == s.queue[..|s.queue| - 1][0];
    }
  }

  lemma NextInv(n: nat, limit: nat, s: State, m: Move)
    requires Inv(n, s) && Enabled(s, m)
    ensures Inv(n, Next(n, limit, s, m))
  {
    if m.Deliver? {
      DeliverInv(n, limit, s);
    } else if m.SenderMove? && s.sender.SendFinal? {
      assert (s.queue + [1])[..|s.queue|] == s.queue;
    }
  }

  /** `moves` is an interleaving of sender and receiver that leads from `s` to `e`. */
  ghost predicate Run(n: nat, limit: nat, s: State, moves: seq<Move>, e: State)
    decreases |moves|
  {
    if moves == [] then s == e
    else Enabled(s, moves[0]) && Run(n, limit, Next(n, limit, s, moves[0]), moves[1..], e)
  }

  ghost predicate Stuck(s: State) {
    forall m :: !Enabled(s, m)
  }

  lemma {:induction false} RunInv(n: nat, limit: nat, s: State, moves: seq<Move>, e: State)
    requires Inv(n, s) && Run(n, limit, s, moves, e)
    ensures Inv(n, e)
    decreases |moves|
  {
    if moves != [] {
      NextInv(n, limit, s, moves[0]);
      RunInv(n, limit, Next(n, limit, s, moves[0]), moves[1..], e);
    }
  }

  lemma StartInv(n: nat)
    ensures Inv(n, START)
  {
  }

  /** When neither process can go on, the receiver has printed unless there was no final signal. */
  lemma StuckPrints(n: nat, s: State)
    requires Inv(n, s) && Stuck(s)
    ensures s.printed.Count? <==> s.sender == Finished && !s.finalLost
  {
    assert Enabled(s, SenderMove(0)) <==> !s.sender.Finished? && !s.sender.Refused?;
    assert Enabled(s, Deliver) <==> s.queue != [] && s.printed == Nothing;
    assert Enabled(s, Print) <==> s.done && s.printed == Nothing;
  }

  /** At any time the zeros taken by sigqueue are those counted and those still pending, and what the
      receiver prints is their number; it prints unless the sender refused or its 1 was lost. */
  lemma CountIsExact(n: nat, limit: nat, moves: seq<Move>, e: State)
    requires Run(n, limit, START, moves, e)
    ensures e.accepted == e.count + ZerosPending(e) <= n
    ensures e.printed.Count? ==> e.printed.count == e.accepted
    ensures Stuck(e) ==> (e.printed.Count? <==> e.sender == Finished && !e.finalLost)
  {
    RunInv(n, limit, START, moves, e);
    if Stuck(e) {
      StuckPrints(n, e);
    }
  }

  // ---- When nothing else is pending ----

  predicate Quiet(moves: seq<Move>) {
    forall k :: 0 <= k < |moves| && moves[k].SenderMove? ==> moves[k].others == 0
  }

  /** With room for all n + 1 signals none is ever turned away. */
  ghost predicate Roomy(n: nat, s: State) {
    && !s.finalLost && !s.sender.Refused?
    && (s.sender.Send? ==> s.accepted == s.sender.i)
    && (s.sender.SendFinal? || s.sender.Finished? ==> s.accepted == n)
  }

  lemma {:induction false} RoomyRun(n: nat, limit: nat, s: State, moves: seq<Move>, e: State)
    requires n < limit && Inv(n, s) && Roomy(n, s) && Run(n, limit, s, moves, e) && Quiet(moves)
    ensures Inv(n, e) && Roomy(n, e)
    decreases |moves|
  {
    if moves != [] {
      NextInv(n, limit, s, moves[0]);
      RoomyRun(n, limit, Next(n, limit, s, moves[0]), moves[1..], e);
    }
  }

  /** A run to the end from a state in which no signal has been delivered before the final one is due. */
  lemma LoseFinal(n: nat, s: State) returns (moves: seq<Move>, e: State)
    requires Inv(n, s) && !s.done && s.printed == Nothing
    requires s.sender == Check || s.sender.Send? || s.sender == SendFinal || (s.sender == Finished && s.finalLost)
    requires s.sender == Check ==> s.queue == []
    requires s.sender.Send? ==> |s.queue| == s.sender.i
    requires s.sender == SendFinal ==> |s.queue| == n
    ensures Run(n, n, s, moves, e) && Quiet(moves) && Stuck(e) && e.printed == Nothing
    decreases (match s.sender case Check => n + 3 case Send(i) => n - i + 2 case SendFinal => 1 case _ => 0), |s.queue|
  {
    if s.sender == Finished && s.queue == [] {
      return [], s;
    }
    var m := if s.sender == Finished then Deliver else SenderMove(0);
    NextInv(n, n, s, m);
    var rest, last := LoseFinal(n, Next(n, n, s, m));
    moves, e := [m] + rest, last;
    assert moves[1..] == rest;
  }

  /** The sender's check lets n == limit through, although n + 1 signals follow. With nothing else
      pending, every run to the end prints exactly n if and only if n is below the limit. */
  lemma ReceiverStopsExactly(n: nat, limit: nat)
    ensures (forall moves, e :: Run(n, limit, START, moves, e) && Quiet(moves) && Stuck(e) ==> e.printed == Count(n))
       <==> n < limit
  {
    if n < limit {
      forall moves, e | Run(n, limit, START, moves, e) && Quiet(moves) && Stuck(e)
        ensures e.printed == Count(n)
      {
        RoomyRun(n, limit, START, moves, e);
        CountIsExact(n, limit, moves, e);
        assert !Enabled(e, SenderMove(0));
      }
    } else if n == limit {
      var moves, e := LoseFinal(n, START);
      assert Run(n, limit, START, moves, e) && Quiet(moves) && Stuck(e) && e.printed != Count(n);
    } else {
      var e := START.(sender := Refused);
      var moves := [SenderMove(0)];
      assert moves[1..] == [];
      assert Run(n, limit, e, [], e);
      assert Run(n, limit, START, moves, e) && Quiet(moves) && Stuck(e) && e.printed != Count(n);
    }
  }

  /** What the sender's check has decided. */
  ghost predicate CheckedOk(n: nat, limit: nat, s: State) {
    && (s.sender.Refused? ==> n > limit && s.queue == [] && s.accepted == 0)
    && (s.sender.Send? || s.sender.SendFinal? || s.sender.Finished? ==> n <= limit)
    && (s.sender.Check? ==> s.queue == [] && s.accepted == 0)
  }

  lemma {:induction false} RunChecked(n: nat, limit: nat, s: State, moves: seq<Move>, e: State)
    requires CheckedOk(n, limit, s) && Run(n, limit, s, moves, e)
    ensures CheckedOk(n, limit, e)
    decreases |moves|
  {
    if moves != [] {
      RunChecked(n, limit, Next(n, limit, s, moves[0]), moves[1..], e);
    }
  }

  /** The sender refuses exactly the counts above the limit, and then it has sent nothing; so a count
      that is not refused and not printed either is one whose final signal was lost. */
  lemma RefusedExactly(n: nat, limit: nat, moves: seq<Move>, e: State)
    requires Run(n, limit, START, moves, e)
    ensures e.sender.Refused? ==> n > limit && e.accepted == 0 && e.queue == []
    ensures Stuck(e) ==> (e.sender.Refused? <==> n > limit)
    ensures Stuck(e) && n <= limit ==> (e.printed == Nothing <==> e.finalLost)
  {
    RunChecked(n, limit, START, moves, e);
    CountIsExact(n, limit, moves, e);
    if Stuck(e) {
      assert !Enabled(e, SenderMove(0));
    }
    StartInv(n);
    RunInv(n, limit, START, moves, e);
  }

  /** sigqueue takes a signal exactly while fewer than `limit` are pending, those of others included:
      the pending signals never exceed the limit, and one is turned away only when they reach it. The
      loop queues zeros, the last signal is a one. */
  lemma PendingWithinLimit(n: nat, limit: nat, s: State, others: nat)
    requires Enabled(s, SenderMove(others))
    requires s.sender == SendFinal || (s.sender.Send? && s.sender.i < n)
    ensures var s' := Next(n, limit, s, SenderMove(others));
            if s'.queue != s.queue then
              && |s'.queue| + others <= limit && s'.queue[..|s.queue|] == s.queue
              && s'.queue[|s.queue|..] == [if s.sender == SendFinal then 1 else 0]
            else |s.queue| + others >= limit
  {
  }

  /** No run goes on for ever. */
  function Work(n: nat, s: State): nat
    requires s.sender.Send? ==> s.sender.i <= n
  {
    |s.queue| + (if s.printed == Nothing then 1 else 0)
    + 2 * match s.sender case Check => n + 3 case Send(i) => n - i + 2 case SendFinal => 1 case _ => 0
  }

  lemma WorkDescends(n: nat, limit: nat, s: State, m: Move)
    requires Inv(n, s) && Enabled(s, m) && Inv(n, Next(n, limit, s, m))
    ensures Work(n, Next(n, limit, s, m)) < Work(n, s)
  {
  }

  lemma {:induction false} RunsAreFinite(n: nat, limit: nat, s: State, moves: seq<Move>, e: State)
    requires Inv(n, s) && Run(n, limit, s, moves, e)
    ensures Inv(n, e) && |moves| + Work(n, e) <= Work(n, s)
    decreases |moves|
  {
    if moves != [] {
      NextInv(n, limit, s, moves[0]);
      WorkDescends(n, limit, s, moves[0]);
      RunsAreFinite(n, limit, Next(n, limit, s, moves[0]), moves[1..], e);
    }
  }

  // ---- The two processes, run by an arbitrary scheduler ----

  class Processes {
    const n: nat
    const limit: nat
    var sender: Sender
    var queue: seq<int>
    var count: nat
    var done: bool
    var printed: Printed
    ghost var accepted: nat
    ghost var finalLost: bool

    ghost function Snapshot(): State
      reads this
    {
      State(sender, queue, count, done, printed, accepted, finalLost)
    }

    constructor (n: nat, limit: nat)
      ensures this.n == n && this.limit == limit && Snapshot() == START
    {
      this.n, this.limit := n, limit;
      sender, queue, count, done, printed := Check, [], 0, false, Nothing;
      accepted, finalLost := 0, false;
    }

    /** sigqueue: it fails when the limit on pending signals is reached. */
    method SigQueue(value: int, others: nat) returns (ok: bool)
      modifies this`queue
      ensures ok <==> |old(queue)| + others < limit
      ensures queue == if ok then old(queue) + [value] else old(queue)
    {
      ok := |queue| + others < limit;
      if ok {
        queue := queue + [value];
      }
    }

    /** sig_handler */
    method SigHandler(value: int)
      modifies this`count, this`done
      ensures count == old(count) + if value == 0 then 1 else 0
      ensures done == (old(done) || value == 1)
    {
      if value == 0 {
        count := count + 1;
      }
      if value == 1 {
        done := true;
      }
    }

    method Step(m: Move)
      requires Enabled(Snapshot(), m)
      modifies this
      ensures Snapshot() == Next(n, limit, old(Snapshot()), m)
    {
      match m {
        case SenderMove(others) =>
          if sender.Check? {
            sender := if n > limit then Refused else Send(0);
          } else if sender.Send? && sender.i < n {
            var ok := SigQueue(0, others);
            accepted := accepted + if ok then 1 else 0;
            sender := Send(sender.i + 1);
          } else if sender.Send? {
            sender := SendFinal;
          } else {
            var ok := SigQueue(1, others);
            finalLost := finalLost || !ok;
            sender := Finished;
          }
        case Deliver =>
          var value := queue[0];
          queue := queue[1..];
          SigHandler(value);
        case Print =>
          printed := Count(count);
      }
    }

    /** Until neither process can go on: the receiver has printed the count or spins for ever. */
    method RunToEnd()
      requires Snapshot() == START
      modifies this
      ensures Stuck(Snapshot()) && accepted == count + ZerosPending(Snapshot()) <= n
      ensures printed.Count? ==> printed.count == accepted
      ensures printed.Count? <==> sender == Finished && !finalLost
    {
      StartInv(n);
      hide QueueOk, AllZero;
      while true
        invariant Inv(n, Snapshot())
        decreases Work(n, Snapshot())
      {
        var m: Move;
        if {
          case !sender.Finished? && !sender.Refused? =>
            var others: nat := *;
            m := SenderMove(others);
          case queue != [] && printed == Nothing =>
            m := Deliver;
          case done && printed == Nothing =>
            m := Print;
          case (sender.Finished? || sender.Refused?) && (printed.Count? || (queue == [] && !done)) =>
            break;
        }
        NextInv(n, limit, Snapshot(), m);
        WorkDescends(n, limit, Snapshot(), m);
        Step(m);
      }
      StuckPrints(n, Snapshot());
    }
  }
}
