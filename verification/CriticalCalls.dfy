/** Calls (rtl/critical.c:484-781). */
module CriticalCalls {
  import opened CriticalSection

  // What the calls on a critical section achieve. A call is followed from its first step to the step with which it
  // returns, or with which it comes to its wait, while the other threads do whatever they like in between.

  function OwnSteps(moves: seq<Move>, t: int): nat {
    if moves == [] then 0
    else (if moves[0].thread == t then 1 else 0) + OwnSteps(moves[1..], t)
  }

  /** Thread t of the run, the threads being those of the state after i moves. */
  function ThreadAt(s: State, moves: seq<Move>, i: nat, t: int): Thread
    requires i <= |moves|
  {
    var threads := Run(s, moves[..i]).threads;
    if t in threads then threads[t] else Thread(Idle, 0)
  }

  predicate Stopped(th: Thread) {
    th.pc == Idle || th.pc == Wait
  }

  /** The step at which thread t next returns from a call or comes to its wait is the one before the i-th state,
      and this is where it then stands. */
  ghost predicate StopsAt(s: State, moves: seq<Move>, t: int, i: nat, end: Thread) {
    && 0 < i <= |moves| && ThreadAt(s, moves, i, t) == end && Stopped(end)
    && forall j :: 0 < j < i ==> !Stopped(ThreadAt(s, moves, j, t))
  }

  ghost predicate Stops(s: State, moves: seq<Move>, t: int, end: Thread) {
    exists i :: StopsAt(s, moves, t, i, end)
  }

  /** In the state after the run before, idle thread t makes the call, and at least `steps` of the moves are its own. */
  ghost predicate Calls(before: seq<Move>, t: int, call: Call, moves: seq<Move>, steps: nat) {
    && t in After(before).threads && After(before).threads[t].pc == Idle
    && moves != [] && moves[0] == Move(t, call) && OwnSteps(moves, t) >= steps
  }

  /** RtlTryEnterCriticalSection never waits: it returns within five steps of its own. It has the section exactly
      when that was free or the caller's own at the first step. */
  lemma TryEnterReturns(before: seq<Move>, t: int, moves: seq<Move>)
    requires Calls(before, t, TryEnter, moves, 5)
    ensures
      var s, d := After(before), After(before).threads[t].depth;
      Stops(s, moves, t, Thread(Idle, if s.LockCount == -1 || d > 0 then d + 1 else d))
  {
    Reachable(before);
    InvSees(After(before), t);
    CallStops(After(before), t, moves);
  }

  /** RtlEnterCriticalSection returns with the section in the same cases, and otherwise comes to its wait, in either
      case within seven steps of its own. */
  lemma EnterReturnsOrWaits(before: seq<Move>, t: int, moves: seq<Move>)
    requires Calls(before, t, Enter, moves, 7)
    ensures
      var s, d := After(before), After(before).threads[t].depth;
      Stops(s, moves, t, if s.LockCount == -1 || d > 0 then Thread(Idle, d + 1) else Thread(Wait, 0))
  {
    Reachable(before);
    InvSees(After(before), t);
    CallStops(After(before), t, moves);
  }

  /** A waiting thread that finds the event signalled returns with the section within three steps. */
  lemma WaitReturns(before: seq<Move>, t: int, moves: seq<Move>)
    requires t in After(before).threads && After(before).threads[t].pc == Wait && EventSet(After(before))
    requires moves != [] && moves[0].thread == t && OwnSteps(moves, t) >= 3
    ensures Stops(After(before), moves, t, Thread(Idle, 1))
  {
    Reachable(before);
    InvSees(After(before), t);
    CallStops(After(before), t, moves);
  }

  /** RtlLeaveCriticalSection never waits: it returns within eleven steps of its own, with one acquisition less. */
  lemma LeaveReturns(before: seq<Move>, t: int, moves: seq<Move>)
    requires Calls(before, t, Leave, moves, 11) && After(before).threads[t].depth > 0
    ensures Stops(After(before), moves, t, Thread(Idle, After(before).threads[t].depth - 1))
  {
    Reachable(before);
    InvSees(After(before), t);
    CallStops(After(before), t, moves);
  }

  // ----- how far a call is from its end, and what its end will be

  function StepsLeft(pc: Pc): nat {
    match pc
    case Idle | Wait => 0
    case OwnerWrite => 2
    case CountWrite => 1
    case TryTest => 4
    case TryIncrement => 3
    case EnterRead => 2
    case EnterWrite(_) => 1
    case EnterTest => 6
    case WaitTest => 5
    case LeaveRead => 10
    case LeaveWrite(_) => 9
    case LeaveInner => 1
    case LeaveClear => 8
    case LeaveOuter => 7
    case SignalTest => 6
    case Signal => 1
    case CreateTest(why) => 4 + ToSignalLeft(why)
    case CreateEvent(why) => 3 + ToSignalLeft(why)
    case CreateSwap(why, _) => 2 + ToSignalLeft(why)
    case CreateClose(why, _) => 1 + ToSignalLeft(why)
  }

  function ToSignalLeft(why: Purpose): nat {
    if why == ToSignal then 1 else 0
  }

  function EndOf(th: Thread): Thread {
    if Waits(th) then Thread(Wait, 0)
    else if (th.pc == TryTest && th.depth == 0) || th.pc == Idle || Releases(th) then Thread(Idle, th.depth)
    else if th.pc in {LeaveRead, LeaveInner, LeaveClear, LeaveOuter} || th.pc.LeaveWrite?
      then Thread(Idle, th.depth - 1)
    else Thread(Idle, th.depth + 1)
  }

  /** What the thread finds in the record, and how deep it is. */
  ghost predicate Sees(s: State, t: int) {
    && t > 0 && t in s.threads && DepthOk(s.threads[t]) && (Named(s.threads[t]) <==> s.OwningThread == t)
    && (Owns(s.threads[t]) ==> s.RecursionCount == CountOf(s.threads[t]) && ReadOk(s.threads[t], s.RecursionCount))
  }

  lemma InvSees(s: State, t: int)
    requires Inv(s) && t in s.threads
    ensures Sees(s, t)
  {
    var k :| InvWith(s, k);
    assert ThreadOk(s, k, t);
  }

  ghost predicate Nearer(th: Thread, th': Thread) {
    EndOf(th') == EndOf(th) && StepsLeft(th'.pc) < StepsLeft(th.pc)
  }

  lemma OwnStep(s: State, t: int, call: Call)
    requires Sees(s, t) && !Stopped(s.threads[t])
    ensures t in Act(s, t, call).threads && Nearer(s.threads[t], Act(s, t, call).threads[t])
  {
    match s.threads[t].pc
    case EnterTest | EnterRead | EnterWrite(_) | OwnerWrite | CountWrite | TryTest | TryIncrement =>
      AcquireStep(s, t, call);
    case LeaveRead | LeaveWrite(_) | LeaveInner | LeaveClear | LeaveOuter => LeaveStep(s, t, call);
    case _ => EventStepOn(s, t, call);
  }

  lemma AcquireStep(s: State, t: int, call: Call)
    requires Sees(s, t)
    requires s.threads[t].pc in {EnterTest, EnterRead, OwnerWrite, CountWrite, TryTest, TryIncrement}
        || s.threads[t].pc.EnterWrite?
    ensures t in Act(s, t, call).threads && Nearer(s.threads[t], Act(s, t, call).threads[t])
  {
  }

  lemma LeaveStep(s: State, t: int, call: Call)
    requires Sees(s, t)
    requires s.threads[t].pc in {LeaveRead, LeaveInner, LeaveClear, LeaveOuter} || s.threads[t].pc.LeaveWrite?
    ensures t in Act(s, t, call).threads && Nearer(s.threads[t], Act(s, t, call).threads[t])
  {
  }

  lemma EventStepOn(s: State, t: int, call: Call)
    requires Sees(s, t) && !Stopped(s.threads[t]) && (Waits(s.threads[t]) || Releases(s.threads[t]))
    requires s.threads[t].pc != EnterTest
    ensures t in Act(s, t, call).threads && Nearer(s.threads[t], Act(s, t, call).threads[t])
  {
  }

  lemma OthersStep(s: State, t: int, u: int, call: Call)
    requires t in s.threads && u != t
    ensures t in Act(s, u, call).threads && Act(s, u, call).threads[t] == s.threads[t]
  {
  }

  /** With enough moves of its own, the thread comes to its end and nowhere stops before. */
  lemma {:induction false} Settles(s: State, t: int, moves: seq<Move>) returns (i: nat)
    requires Inv(s) && t in s.threads && OwnSteps(moves, t) >= StepsLeft(s.threads[t].pc)
    ensures i <= |moves| && ThreadAt(s, moves, i, t) == EndOf(s.threads[t]) && Stopped(EndOf(s.threads[t]))
    ensures forall j :: 0 <= j < i ==> !Stopped(ThreadAt(s, moves, j, t))
    decreases |moves|
  {
    assert moves[..0] == [];
    if Stopped(s.threads[t]) {
      InvSees(s, t);
      return 0;
    }
    InvSees(s, t);
    var s' := Act(s, moves[0].thread, moves[0].call);
    StepKeeps(s, moves[0].thread, moves[0].call);
    if moves[0].thread == t { OwnStep(s, t, moves[0].call); } else { OthersStep(s, t, moves[0].thread, moves[0].call); }
    i := Settles(s', t, moves[1..]);
    i := i + 1;
    Shifted(s, moves, t, i);
  }

  lemma Shifted(s: State, moves: seq<Move>, t: int, n: nat)
    requires 0 < n <= |moves|
    ensures
      var s' := Act(s, moves[0].thread, moves[0].call);
      forall j :: 0 < j <= n ==> ThreadAt(s, moves, j, t) == ThreadAt(s', moves[1..], j - 1, t)
  {
    forall j | 0 < j <= n
      ensures
        var s' := Act(s, moves[0].thread, moves[0].call);
        ThreadAt(s, moves, j, t) == ThreadAt(s', moves[1..], j - 1, t)
    {
      assert moves[..j][1..] == moves[1..][..j - 1];
    }
  }

  /** The first step decides the end. */
  lemma CallStops(s: State, t: int, moves: seq<Move>)
    requires Inv(s) && t in s.threads && Stopped(s.threads[t]) && moves != [] && moves[0].thread == t
    requires
      var s' := Act(s, t, moves[0].call);
      t in s'.threads && OwnSteps(moves, t) > StepsLeft(s'.threads[t].pc)
    ensures Stops(s, moves, t, EndOf(Act(s, t, moves[0].call).threads[t]))
  {
    var s' := Act(s, t, moves[0].call);
    StepKeeps(s, t, moves[0].call);
    var i := Settles(s', t, moves[1..]);
    Shifted(s, moves, t, i + 1);
    assert StopsAt(s, moves, t, i + 1, EndOf(s'.threads[t]));
  }
}
