/** The shared-memory handshake of studios/studio13: leader.c fills its array and copies it into the
    shared object, follower.c copies it out, and three flags order the two. Memory is sequentially
    consistent; a turn of a spin loop that finds its flag still 0 changes nothing and is no step. */
module Handshake {
  datatype Leader =
    | AwaitFollower      // while (data->write_guard == 0) {}
    | Fill(i: nat)       // arr[i] = rand()
    | Copy(i: nat)       // data->data[i] = arr[i]
    | Publish            // data->read_guard = 1
    | AwaitDelete        // while (data->delete_guard == 0) {}
    | LeaderDone

  datatype Follower =
    | Announce                 // data->write_guard = 1
    | AwaitWrite               // while (data->read_guard == 0) {}
    | CopyOut(todo: set<nat>)  // memcpy, which may copy its elements in any order
    | Release                  // data->delete_guard = 1
    | FollowerDone

  datatype State = State(
    writeGuard: bool, readGuard: bool, deleteGuard: bool,
    leader: Leader, follower: Follower,
    leaderArr: seq<int>, shared: seq<int>, followerArr: seq<int>)

  /** One step of either process: `value` is what `rand` returns, `k` the element copied next. */
  datatype Move = LeaderMove(value: int) | FollowerMove(k: nat)

  ghost predicate WellFormed(n: nat, s: State) {
    && |s.leaderArr| == |s.shared| == |s.followerArr| == n
    && (s.leader.Fill? ==> s.leader.i <= n) && (s.leader.Copy? ==> s.leader.i <= n)
    && (s.follower.CopyOut? ==> forall k :: k in s.follower.todo ==> k < n)
  }

  predicate Enabled(s: State, m: Move) {
    match m
    case LeaderMove(_) =>
      && s.leader != LeaderDone
      && (s.leader.AwaitFollower? ==> s.writeGuard)
      && (s.leader.AwaitDelete? ==> s.deleteGuard)
    case FollowerMove(k) =>
      && s.follower != FollowerDone
      && (s.follower.AwaitWrite? ==> s.readGuard)
      && (s.follower.CopyOut? && s.follower.todo != {} ==> k in s.follower.todo)
  }

  function Indices(n: nat): (ks: set<nat>)
    ensures |ks| == n && forall k: nat :: k in ks <==> k < n
  {
    if n == 0 then {} else Indices(n - 1) + {n - 1}
  }

  ghost function Next(n: nat, s: State, m: Move): State
    requires WellFormed(n, s) && Enabled(s, m)
  {
    match m
    case LeaderMove(value) => (
      match s.leader
      case AwaitFollower => s.(leader := Fill(0))
      case Fill(i) =>
        if i < n then s.(leaderArr := s.leaderArr[i := value], leader := Fill(i + 1)) else s.(leader := Copy(0))
      case Copy(i) =>
        if i < n then s.(shared := s.shared[i := s.leaderArr[i]], leader := Copy(i + 1)) else s.(leader := Publish)
      case Publish => s.(readGuard := true, leader := AwaitDelete)
      case AwaitDelete => s.(leader := LeaderDone)
      case LeaderDone => s)
    case FollowerMove(k) => (
      match s.follower
      case Announce => s.(writeGuard := true, follower := AwaitWrite)
      case AwaitWrite => s.(follower := CopyOut(Indices(n)))
      case CopyOut(todo) =>
        if todo != {} then s.(followerArr := s.followerArr[k := s.shared[k]], follower := CopyOut(todo - {k}))
        else s.(follower := Release)
      case Release => s.(deleteGuard := true, follower := FollowerDone)
      case FollowerDone => s)
  }

  // ---- What the flags mean ----

  predicate LeaderFinishedWriting(s: State) {
    s.leader.AwaitDelete? || s.leader.LeaderDone?
  }

  ghost predicate Inv(n: nat, s: State) {
    && WellFormed(n, s)
    && (s.writeGuard <==> !s.follower.Announce?)
    && (s.readGuard <==> LeaderFinishedWriting(s))
    && (s.deleteGuard <==> s.follower.FollowerDone?)
    && (!s.leader.AwaitFollower? ==> s.writeGuard)
    && (!s.follower.Announce? && !s.follower.AwaitWrite? ==> s.readGuard)
    && (s.leader.LeaderDone? ==> s.deleteGuard)
    && (s.leader.Copy? ==> forall j :: 0 <= j < s.leader.i ==> s.shared[j] == s.leaderArr[j])
    && (s.leader.Publish? || LeaderFinishedWriting(s) ==> s.shared == s.leaderArr)
    && (s.follower.CopyOut? ==> forall j :: 0 <= j < n && j !in s.follower.todo ==> s.followerArr[j] == s.shared[j])
    && (s.follower.Release? || s.follower.FollowerDone? ==> s.followerArr == s.shared)
  }

  ghost predicate Init(n: nat, s: State) {
    && |s.leaderArr| == |s.shared| == |s.followerArr| == n
    && !s.writeGuard && !s.readGuard && !s.deleteGuard
    && s.leader == AwaitFollower && s.follower == Announce
  }

  lemma NextInv(n: nat, s: State, m: Move)
    requires Inv(n, s) && Enabled(s, m)
    ensures Inv(n, Next(n, s, m))
  {
  }

  // ---- Runs ----

  function LeaderWork(n: nat, l: Leader): int {
    match l
    case AwaitFollower => 2 * n + 5
    case Fill(i) => 2 * n - i + 4
    case Copy(i) => n - i + 3
    case Publish => 2
    case AwaitDelete => 1
    case LeaderDone => 0
  }

  function FollowerWork(n: nat, f: Follower): nat {
    match f
    case Announce => n + 4
    case AwaitWrite => n + 3
    case CopyOut(todo) => |todo| + 2
    case Release => 1
    case FollowerDone => 0
  }

  ghost function Work(n: nat, s: State): (w: nat)
    requires WellFormed(n, s)
  {
    LeaderWork(n, s.leader) + FollowerWork(n, s.follower)
  }

  lemma MoveDoesOneUnit(n: nat, s: State, m: Move)
    requires WellFormed(n, s) && Enabled(s, m)
    ensures WellFormed(n, Next(n, s, m)) && Work(n, Next(n, s, m)) == Work(n, s) - 1
  {
    if m.LeaderMove? {
      LeaderMoveDoesOneUnit(n, s, m);
    } else {
      FollowerMoveDoesOneUnit(n, s, m);
    }
  }

  lemma LeaderMoveDoesOneUnit(n: nat, s: State, m: Move)
    requires WellFormed(n, s) && Enabled(s, m) && m.LeaderMove?
    ensures WellFormed(n, Next(n, s, m)) && LeaderWork(n, Next(n, s, m).leader) == LeaderWork(n, s.leader) - 1
    ensures Next(n, s, m).follower == s.follower
  {
  }

  lemma FollowerMoveDoesOneUnit(n: nat, s: State, m: Move)
    requires WellFormed(n, s) && Enabled(s, m) && m.FollowerMove?
    ensures WellFormed(n, Next(n, s, m)) && FollowerWork(n, Next(n, s, m).follower) == FollowerWork(n, s.follower) - 1
    ensures Next(n, s, m).leader == s.leader
  {
  }

  ghost predicate BothDone(s: State) {
    s.leader == LeaderDone && s.follower == FollowerDone
  }

  lemma Progress(n: nat, s: State)
    requires Inv(n, s) && !BothDone(s)
    ensures exists m :: Enabled(s, m)
  {
    if Enabled(s, LeaderMove(0)) {
    } else if s.follower.CopyOut? && s.follower.todo != {} {
      var k :| k in s.follower.todo;
      assert Enabled(s, FollowerMove(k));
    } else {
      assert Enabled(s, FollowerMove(0));
    }
  }

  /** `moves` is an interleaving that leads from `s` to `e`. */
  ghost predicate Run(n: nat, s: State, moves: seq<Move>, e: State)
    decreases |moves|
  {
    if moves == [] then s == e
    else WellFormed(n, s) && Enabled(s, moves[0]) && Run(n, Next(n, s, moves[0]), moves[1..], e)
  }

  lemma {:induction false} RunInv(n: nat, s: State, moves: seq<Move>, e: State)
    requires Inv(n, s) && Run(n, s, moves, e)
    ensures Inv(n, e) && |moves| + Work(n, e) == Work(n, s)
    decreases |moves|
  {
    if moves != [] {
      NextInv(n, s, moves[0]);
      MoveDoesOneUnit(n, s, moves[0]);
      RunInv(n, Next(n, s, moves[0]), moves[1..], e);
    }
  }

  /** In every interleaving the flags are raised in the order write, read, delete; and from the first
      element the follower copies to its last, the leader has finished every write and cannot move. */
  lemma FlagsOrderTheCopies(n: nat, s: State, moves: seq<Move>, e: State)
    requires Init(n, s) && Run(n, s, moves, e)
    ensures (e.deleteGuard ==> e.readGuard) && (e.readGuard ==> e.writeGuard)
    ensures e.follower.CopyOut? ==> LeaderFinishedWriting(e) && e.shared == e.leaderArr
    ensures e.follower.CopyOut? ==> forall value :: !Enabled(e, LeaderMove(value))
  {
    RunInv(n, s, moves, e);
  }

  /** Every interleaving has at most 3n + 9 steps, can go on until both ends have finished, and then
      the follower's array equals the leader's. */
  lemma EveryRunCopies(n: nat, s: State, moves: seq<Move>, e: State)
    requires Init(n, s) && Run(n, s, moves, e)
    ensures |moves| <= 3 * n + 9
    ensures (exists m :: Enabled(e, m)) <==> |moves| < 3 * n + 9
    ensures |moves| == 3 * n + 9 <==> BothDone(e)
    ensures BothDone(e) ==> e.followerArr == e.shared == e.leaderArr
  {
    RunInv(n, s, moves, e);
    if !BothDone(e) {
      Progress(n, e);
      var m :| Enabled(e, m);
      MoveDoesOneUnit(n, e, m);
    }
  }

  // ---- What is copied: the numbers that rand returned ----

  /** The values of the leader's moves, in order. */
  function LeaderValues(moves: seq<Move>): seq<int> {
    if moves == [] then []
    else (if moves[0].LeaderMove? then [moves[0].value] else []) + LeaderValues(moves[1..])
  }

  /** After the leader's moves with these values: its first move leaves the spin loop, the next n fill
      its array, one value each. */
  ghost predicate FilledFrom(n: nat, s: State, values: seq<int>) {
    && |s.leaderArr| == n
    && (s.leader.AwaitFollower? ==> values == [])
    && (s.leader.Fill? ==>
          s.leader.i <= n && |values| == s.leader.i + 1
          && forall k :: 0 <= k < s.leader.i ==> s.leaderArr[k] == values[k + 1])
    && (!s.leader.AwaitFollower? && !s.leader.Fill? ==>
          |values| > n + 1 && forall k :: 0 <= k < n ==> s.leaderArr[k] == values[k + 1])
  }

  lemma NextFilled(n: nat, s: State, m: Move, values: seq<int>)
    requires WellFormed(n, s) && Enabled(s, m) && FilledFrom(n, s, values)
    ensures FilledFrom(n, Next(n, s, m), if m.LeaderMove? then values + [m.value] else values)
  {
  }

  lemma {:induction false} RunFilled(n: nat, s: State, past: seq<int>, moves: seq<Move>, e: State)
    requires FilledFrom(n, s, past) && Run(n, s, moves, e)
    ensures FilledFrom(n, e, past + LeaderValues(moves))
    decreases |moves|
  {
    if moves == [] {
      assert past + [] == past;
    } else {
      var now := past + if moves[0].LeaderMove? then [moves[0].value] else [];
      NextFilled(n, s, moves[0], past);
      assert past + [] == past;
      RunFilled(n, Next(n, s, moves[0]), now, moves[1..], e);
      assert now + LeaderValues(moves[1..]) == past + LeaderValues(moves);
    }
  }

  /** In every interleaving each element that the leader has passed holds what `rand` returned for it,
      and when both have finished the follower's array is the sequence of all n of those numbers. */
  lemma EveryRunCopiesTheNumbers(n: nat, s: State, moves: seq<Move>, e: State)
    requires Init(n, s) && Run(n, s, moves, e)
    ensures e.leader.Fill? ==>
              && e.leader.i <= |e.leaderArr| && |LeaderValues(moves)| == e.leader.i + 1
              && forall k :: 0 <= k < e.leader.i ==> e.leaderArr[k] == LeaderValues(moves)[k + 1]
    ensures BothDone(e) ==> |LeaderValues(moves)| > n + 1 && e.followerArr == LeaderValues(moves)[1..n + 1]
  {
    RunFilled(n, s, [], moves, e);
    assert [] + LeaderValues(moves) == LeaderValues(moves);
    EveryRunCopies(n, s, moves, e);
    RunInv(n, s, moves, e);
  }

  /** The numbers `randoms` as far as the leader has stored them. */
  ghost predicate Stored(n: nat, s: State, randoms: seq<int>) {
    && |s.leaderArr| == n == |randoms|
    && (s.leader.Fill? ==> s.leader.i <= n && forall k :: 0 <= k < s.leader.i ==> s.leaderArr[k] == randoms[k])
    && (!s.leader.AwaitFollower? && !s.leader.Fill? ==> s.leaderArr == randoms)
  }

  lemma NextStored(n: nat, s: State, m: Move, randoms: seq<int>)
    requires WellFormed(n, s) && Enabled(s, m) && Stored(n, s, randoms)
    requires m.LeaderMove? && s.leader.Fill? && s.leader.i < n ==> m.value == randoms[s.leader.i]
    ensures Stored(n, Next(n, s, m), randoms)
  {
  }

  // ---- The two programs on real arrays ----

  class SharedObject {
    const n: nat
    var writeGuard: bool
    var readGuard: bool
    var deleteGuard: bool
    var leader: Leader
    var follower: Follower
    const leaderArr: array<int>
    const shared: array<int>
    const followerArr: array<int>

    ghost function Snapshot(): State
      reads this, leaderArr, shared, followerArr
    {
      State(writeGuard, readGuard, deleteGuard, leader, follower, leaderArr[..], shared[..], followerArr[..])
    }

    ghost predicate Valid()
      reads this, leaderArr, shared, followerArr
    {
      leaderArr != shared && shared != followerArr && leaderArr != followerArr && WellFormed(n, Snapshot())
    }

    /** A fresh shared object reads as zero. */
    constructor (n: nat)
      ensures this.n == n && Valid() && Init(n, Snapshot())
      ensures fresh(leaderArr) && fresh(shared) && fresh(followerArr)
    {
      this.n := n;
      writeGuard, readGuard, deleteGuard := false, false, false;
      leader, follower := AwaitFollower, Announce;
      leaderArr, shared, followerArr := new int[n], new int[n], new int[n];
    }

    method LeaderStep(value: int)
      requires Valid() && Enabled(Snapshot(), LeaderMove(value))
      modifies this`leader, this`readGuard, leaderArr, shared
      ensures Valid() && Snapshot() == Next(n, old(Snapshot()), LeaderMove(value))
    {
      match leader {
        case AwaitFollower =>
          leader := Fill(0);
        case Fill(i) =>
          if i < n {
            leaderArr[i] := value;
            leader := Fill(i + 1);
          } else {
            leader := Copy(0);
          }
        case Copy(i) =>
          if i < n {
            shared[i] := leaderArr[i];
            leader := Copy(i + 1);
          } else {
            leader := Publish;
          }
        case Publish =>
          readGuard := true;
          leader := AwaitDelete;
        case AwaitDelete =>
          leader := LeaderDone;
      }
    }

    method FollowerStep(k: nat)
      requires Valid() && Enabled(Snapshot(), FollowerMove(k))
      modifies this`follower, this`writeGuard, this`deleteGuard, followerArr
      ensures Valid() && Snapshot() == Next(n, old(Snapshot()), FollowerMove(k))
    {
      match follower {
        case Announce =>
          writeGuard := true;
          follower := AwaitWrite;
        case AwaitWrite =>
          follower := CopyOut(Indices(n));
        case CopyOut(todo) =>
          if todo != {} {
            followerArr[k] := shared[k];
            follower := CopyOut(todo - {k});
          } else {
            follower := Release;
          }
        case Release =>
          deleteGuard := true;
          follower := FollowerDone;
      }
    }

    /** Runs leader and follower under an arbitrary scheduler until both have finished; `randoms` are the
        numbers that the leader's `rand` returns. */
    method Exchange(randoms: seq<int>)
      requires Valid() && Init(n, Snapshot()) && |randoms| == n
      modifies this, leaderArr, shared, followerArr
      ensures BothDone(Snapshot()) && deleteGuard
      ensures followerArr[..] == shared[..] == leaderArr[..] == randoms
    {
      hide Next;
      while leader != LeaderDone || follower != FollowerDone
        invariant Valid() && Inv(n, Snapshot()) && Stored(n, Snapshot(), randoms)
        decreases Work(n, Snapshot())
      {
        var value: int := *;
        if leader.Fill? && leader.i < n {
          value := randoms[leader.i];
        }
        var k: nat := *;
        if follower.CopyOut? && follower.todo != {} {
          k :| k in follower.todo;
        }
        var leaderMoves: bool := *;
        if leaderMoves && Enabled(Flags(), LeaderMove(value)) {
          NextInv(n, Snapshot(), LeaderMove(value));
          NextStored(n, Snapshot(), LeaderMove(value), randoms);
          MoveDoesOneUnit(n, Snapshot(), LeaderMove(value));
          LeaderStep(value);
        } else if Enabled(Flags(), FollowerMove(k)) {
          NextInv(n, Snapshot(), FollowerMove(k));
          NextStored(n, Snapshot(), FollowerMove(k), randoms);
          MoveDoesOneUnit(n, Snapshot(), FollowerMove(k));
          FollowerStep(k);
        } else {
          assert Enabled(Flags(), LeaderMove(value));
          NextInv(n, Snapshot(), LeaderMove(value));
          NextStored(n, Snapshot(), LeaderMove(value), randoms);
          MoveDoesOneUnit(n, Snapshot(), LeaderMove(value));
          LeaderStep(value);
        }
      }
    }

    /** The part of the state that the spin loops look at. */
    function Flags(): State
      reads this
    {
      State(writeGuard, readGuard, deleteGuard, leader, follower, [], [], [])
    }
  }
}
