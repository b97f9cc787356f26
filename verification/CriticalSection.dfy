/** The critical section (rtl/critical.c). */
module CriticalSection {

  // It is a recursive lock made of one interlocked counter, an owner field and a recursion count written without
  // synchronisation, and an auto-reset event that is created when first needed. Every read, write and system
  // call is one atomic step of one thread; threads interleave freely and new ones may appear at any time.

  /** Why a thread creates the event: to wait on it, or to signal it. */
  datatype Purpose = ToWait | ToSignal

  /** The step a thread takes next. */
  datatype Pc =
    | Idle
    // RtlEnterCriticalSection, after the interlocked increment (rtl/critical.c:490-523)
    | EnterTest | EnterRead | EnterWrite(read: int) | OwnerWrite | CountWrite
    // RtlpWaitForCriticalSection (rtl/critical.c:119-158)
    | WaitTest | Wait
    // RtlpCreateCriticalSectionSem (rtl/critical.c:51-91)
    | CreateTest(why: Purpose) | CreateEvent(why: Purpose) | CreateSwap(why: Purpose,
        event: int) | CreateClose(why: Purpose, event: int)
    // RtlTryEnterCriticalSection, after the failed exchange (rtl/critical.c:767-777)
    | TryTest | TryIncrement
    // RtlLeaveCriticalSection (rtl/critical.c:713-735)
    | LeaveRead | LeaveWrite(read: int) | LeaveInner | LeaveClear | LeaveOuter
    // RtlpUnWaitCriticalSection (rtl/critical.c:217-238)
    | SignalTest | Signal

  /** depth counts the acquisitions that have returned and have not been released. */
  datatype Thread = Thread(pc: Pc, depth: int)

  type Threads = map<int, Thread>

  /** The shared record, the events that are open with their signalled state, the handle the system
      gives out next, and the threads. Thread identifiers and handles are positive; zero stands for no
      owner and for no event. */
  datatype State = State(LockCount: int, OwningThread: int, RecursionCount: int, LockSemaphore: int,
                         events: map<int, bool>, nextHandle: int, threads: Threads)

  datatype Call = Enter | TryEnter | Leave

  /** RtlInitializeCriticalSection (rtl/critical.c:576-582). */
  function Initial(): State {
    State(-1, 0, 0, 0, map[], 1, map[])
  }

  function Goto(s: State, t: int, pc: Pc): State
    requires t in s.threads
  {
    s.(threads := s.threads[t := s.threads[t].(pc := pc)])
  }

  /** A call has returned. */
  function Back(s: State, t: int, depth: int): State {
    s.(threads := s.threads[t := Thread(Idle, depth)])
  }

  function AfterCreate(why: Purpose): Pc {
    if why == ToWait then Wait else Signal
  }

  /** The next atomic step of thread t. An idle thread makes the given call; only a thread that holds
      the section may leave it. A thread waiting on an event that is not signalled stays where it is. */
  function Act(s: State, t: int, call: Call): State {
    if t <= 0 then s
    else if t !in s.threads then Back(s, t, 0)
    else
      var depth := s.threads[t].depth;
      match s.threads[t].pc
      case Idle => Start(s, t, call)

      // Enter: does this thread own it already?
      case EnterTest => Goto(s, t, if s.OwningThread == t then EnterRead else WaitTest)
      case EnterRead => Goto(s, t, EnterWrite(s.RecursionCount))
      case EnterWrite(read) => Back(s, t, depth + 1).(RecursionCount := read + 1)
      case OwnerWrite => Goto(s, t, CountWrite).(OwningThread := t)
      case CountWrite => Back(s, t, 1).(RecursionCount := 1)

      case WaitTest => Goto(s, t, if s.LockSemaphore == 0 then CreateTest(ToWait) else Wait)
      case Wait =>
        if s.LockSemaphore in s.events && s.events[s.LockSemaphore]
        then Goto(s, t, OwnerWrite).(events := s.events[s.LockSemaphore := false])
        else s

      case CreateTest(why) => Goto(s, t, if s.LockSemaphore == 0 then CreateEvent(why) else AfterCreate(why))
      case CreateEvent(why) =>
        Goto(s, t, CreateSwap(why, s.nextHandle)).(events := s.events[s.nextHandle := false],
            nextHandle := s.nextHandle + 1)
      case CreateSwap(why, event) =>
        if s.LockSemaphore == 0 then Goto(s, t, AfterCreate(why)).(LockSemaphore := event)
        else Goto(s, t, CreateClose(why, event))
      case CreateClose(why, event) => Goto(s, t, AfterCreate(why)).(events := s.events - {event})

      case TryTest => if s.OwningThread == t then Goto(s, t, TryIncrement) else Goto(s, t, Idle)
      case TryIncrement => Goto(s, t, EnterRead).(LockCount := s.LockCount + 1)

      case LeaveRead => Goto(s, t, LeaveWrite(s.RecursionCount))
      case LeaveWrite(read) => Goto(s, t, if read - 1 != 0 then LeaveInner else LeaveClear).(RecursionCount := read - 1)
      case LeaveInner => Back(s, t, depth - 1).(LockCount := s.LockCount - 1)
      case LeaveClear => Goto(s, t, LeaveOuter).(OwningThread := 0)
      case LeaveOuter =>
        s.(LockCount := s.LockCount - 1,
           threads := s.threads[t := Thread(if s.LockCount - 1 != -1 then SignalTest else Idle, 0)])

      case SignalTest => Goto(s, t, if s.LockSemaphore == 0 then CreateTest(ToSignal) else Signal)
      case Signal => Goto(s, t, Idle).(events := s.events[s.LockSemaphore := true])
  }

  /** The first step of a call: the interlocked increment, or the interlocked exchange. */
  function Start(s: State, t: int, call: Call): State
    requires t in s.threads
  {
    match call
    case Enter => Goto(s, t, if s.LockCount + 1 != 0 then EnterTest else OwnerWrite).(LockCount := s.LockCount + 1)
    case TryEnter => if s.LockCount == -1 then Goto(s, t, OwnerWrite).(LockCount := 0) else Goto(s, t, TryTest)
    case Leave => if s.threads[t].depth > 0 then Goto(s, t, LeaveRead) else s
  }

  /** A schedule says which thread takes each step and what it calls when it is idle. */
  datatype Move = Move(thread: int, call: Call)

  function Run(s: State, moves: seq<Move>): State
    decreases |moves|
  {
    if moves == [] then s
    else Run(Act(s, moves[0].thread, moves[0].call), moves[1..])
  }

  // ----- what a thread contributes

  /** Between the acquisition and the decrement that gives the section up. */
  predicate Owns(th: Thread) {
    match th.pc
    case Idle | EnterTest | TryTest => th.depth > 0
    case EnterRead | EnterWrite(_) | OwnerWrite | CountWrite | TryIncrement
       | LeaveRead | LeaveWrite(_) | LeaveInner | LeaveClear | LeaveOuter => true
    case _ => false
  }

  /** Has given the section up and is about to signal the event. */
  predicate Releases(th: Thread) {
    match th.pc
    case SignalTest | Signal => true
    case CreateTest(why) => why == ToSignal
    case CreateEvent(why) => why == ToSignal
    case CreateSwap(why, _) => why == ToSignal
    case CreateClose(why, _) => why == ToSignal
    case _ => false
  }

  /** Has incremented the counter and is on its way to wait. */
  predicate Waits(th: Thread) {
    match th.pc
    case EnterTest => th.depth == 0
    case WaitTest | Wait => true
    case CreateTest(why) => why == ToWait
    case CreateEvent(why) => why == ToWait
    case CreateSwap(why, _) => why == ToWait
    case CreateClose(why, _) => why == ToWait
    case _ => false
  }

  /** The owner whose name stands in OwningThread. */
  predicate Named(th: Thread) {
    Owns(th) && th.pc != OwnerWrite && th.pc != LeaveOuter
  }

  /** How many units of LockCount + 1 the thread accounts for: its depth, and one more for an
      acquisition under way. */
  function Units(th: Thread): int {
    th.depth + (if th.pc in {EnterTest, EnterRead, OwnerWrite, CountWrite} || th.pc.EnterWrite? || Waits(th)
        then 1 else 0)
  }

  ghost function Sum(threads: Threads): int
    decreases |threads|
  {
    if t :| t in threads then
      assert |threads - {t}| < |threads| by { Smaller(threads, t); }
      Units(threads[t]) + Sum(threads - {t})
    else 0
  }

  lemma Smaller(threads: Threads, t: int)
    requires t in threads
    ensures |threads - {t}| == |threads| - 1
  {
    assert (threads - {t}).Keys == threads.Keys - {t};
    assert |threads.Keys - {t}| == |threads.Keys| - 1;
    assert |(threads - {t}).Keys| == |threads - {t}| && |threads.Keys| == |threads|;
  }

  lemma {:induction false} SumWithout(threads: Threads, t: int)
    requires t in threads
    ensures Sum(threads) == Units(threads[t]) + Sum(threads - {t})
    decreases |threads|
  {
    var u :| u in threads && Sum(threads) == Units(threads[u]) + Sum(threads - {u});
    if u != t {
      Smaller(threads, u);
      SumWithout(threads - {u}, t);
      Smaller(threads, t);
      SumWithout(threads - {t}, u);
      assert threads - {u} - {t} == threads - {t} - {u};
    }
  }

  lemma SumUpdate(threads: Threads, t: int, th: Thread)
    ensures Sum(threads[t := th]) == Sum(threads) + Units(th) - (if t in threads then Units(threads[t]) else 0)
  {
    SumWithout(threads[t := th], t);
    assert threads[t := th] - {t} == threads - {t};
    if t in threads { SumWithout(threads, t); } else { assert threads - {t} == threads; }
  }

  // ----- the invariant

  /** Where the right to the section is: nowhere because nobody wants it, with its holder, with a
      thread about to signal the event, or in the signalled event. */
  datatype Token = Free | Held(thread: int) | Releasing(thread: int) | Signalled

  /** How deep a thread can be at each of its steps. */
  predicate DepthOk(th: Thread) {
    match th.pc
    case Idle | EnterTest | TryTest => th.depth >= 0
    case EnterRead | EnterWrite(_) | TryIncrement | LeaveRead | LeaveWrite(_) => th.depth >= 1
    case LeaveInner => th.depth >= 2
    case LeaveClear | LeaveOuter => th.depth == 1
    case _ => th.depth == 0
  }

  /** What RecursionCount holds while the thread owns the section. */
  function CountOf(th: Thread): int {
    match th.pc
    case OwnerWrite | CountWrite | LeaveClear | LeaveOuter => 0
    case LeaveInner => th.depth - 1
    case _ => th.depth
  }

  /** The value a thread has read and not yet written back. */
  predicate ReadOk(th: Thread, count: int) {
    match th.pc
    case EnterWrite(read) => read == count
    case LeaveWrite(read) => read == count
    case _ => true
  }

  /** An event that the thread has created and not yet shared or closed; zero when it has none. */
  function OwnEvent(th: Thread): int {
    match th.pc
    case CreateSwap(_, event) => event
    case CreateClose(_, event) => event
    case _ => 0
  }

  predicate HasEvent(th: Thread) {
    th.pc.CreateSwap? || th.pc.CreateClose?
  }

  predicate EventOk(s: State, th: Thread) {
    && (th.pc == Wait || th.pc == Signal || th.pc.CreateClose? ==> s.LockSemaphore != 0)
    && (HasEvent(th) ==>
          OwnEvent(th) in s.events && !s.events[OwnEvent(th)] && OwnEvent(th) != s.LockSemaphore && OwnEvent(th) > 0)
  }

  predicate ThreadOk(s: State, k: Token, t: int)
    requires t in s.threads
  {
    var th := s.threads[t];
    && t > 0 && DepthOk(th) && EventOk(s, th)
    && (Owns(th) <==> k == Held(t)) && (Releases(th) <==> k == Releasing(t))
    && (Named(th) <==> s.OwningThread == t)
    && (Owns(th) ==> s.RecursionCount == CountOf(th) && ReadOk(th, s.RecursionCount))
  }

  predicate TokenOk(s: State, k: Token) {
    && (k.Held? || k.Releasing? ==> k.thread in s.threads)
    && (k == Signalled <==> s.LockSemaphore in s.events && s.events[s.LockSemaphore])
    && (k == Free <==> s.LockCount == -1) && s.LockCount >= -1
    && (!k.Held? ==> s.RecursionCount == 0)
    && (s.OwningThread != 0 ==> s.OwningThread in s.threads)
  }

  ghost predicate EventsOk(s: State) {
    && (s.LockSemaphore != 0 ==> s.LockSemaphore in s.events) && 0 !in s.events
    && (forall e :: e in s.events ==> e < s.nextHandle) && s.nextHandle > 0
    && (forall e {:trigger Accounted(s, e)} :: e in s.events ==> Accounted(s, e))
    && (forall t, u {:trigger Differ(s, t, u)} :: t in s.threads && u in s.threads && t != u ==> Differ(s, t, u))
  }

  predicate Differ(s: State, t: int, u: int)
    requires t in s.threads && u in s.threads
  {
    HasEvent(s.threads[t]) && HasEvent(s.threads[u]) ==> OwnEvent(s.threads[t]) != OwnEvent(s.threads[u])
  }

  /** No event is lost: it is the shared one, or its creator still has it in hand. */
  ghost predicate Accounted(s: State, e: int) {
    e == s.LockSemaphore || exists t :: Creates(s, t, e)
  }

  predicate Creates(s: State, t: int, e: int) {
    t in s.threads && HasEvent(s.threads[t]) && OwnEvent(s.threads[t]) == e
  }

  ghost predicate Balanced(s: State) {
    s.LockCount + 1 == Sum(s.threads)
  }

  ghost predicate InvWith(s: State, k: Token) {
    && TokenOk(s, k) && EventsOk(s) && Balanced(s)
    && (forall t {:trigger ThreadOk(s, k, t)} :: t in s.threads ==> ThreadOk(s, k, t))
  }

  ghost predicate Inv(s: State) {
    exists k :: InvWith(s, k)
  }

  lemma InitialInv()
    ensures InvWith(Initial(), Free)
  {
  }

  // ----- every step keeps it

  /** The threads that do not move see nothing they depend on change. */
  ghost predicate Apart(s: State, k: Token, s': State, k': Token, t: int) {
    && (forall u :: u != t ==> (k == Held(u) <==> k' == Held(u)) && (k == Releasing(u) <==> k' == Releasing(u)))
    && (k == Held(t) || k' == Held(t) || (s'.OwningThread == s.OwningThread && s'.RecursionCount == s.RecursionCount))
    && (s'.OwningThread == s.OwningThread || s'.OwningThread == t || (s.OwningThread == t && s'.OwningThread == 0))
    && (s.LockSemaphore != 0 ==> s'.LockSemaphore == s.LockSemaphore)
  }

  lemma OtherKept(s: State, k: Token, s': State, k': Token, t: int, u: int)
    requires InvWith(s, k) && Apart(s, k, s', k', t) && u != t && u in s.threads && u in s'.threads
        && s'.threads[u] == s.threads[u]
    requires HasEvent(s.threads[u]) ==> EventOk(s', s.threads[u])
    ensures ThreadOk(s', k', u)
  {
    assert ThreadOk(s, k, u);
  }

  ghost predicate SameEvents(s: State, s': State) {
    s'.LockSemaphore == s.LockSemaphore && s'.events == s.events && s'.nextHandle == s.nextHandle
  }

  lemma SameEventsOk(s: State, s': State, t: int)
    requires EventsOk(s) && SameEvents(s, s') && t in s.threads && t in s'.threads
        && s'.threads == s.threads[t := s'.threads[t]]
    requires HasEvent(s'.threads[t]) == HasEvent(s.threads[t]) && OwnEvent(s'.threads[t]) == OwnEvent(s.threads[t])
    ensures EventsOk(s')
  {
    forall e | e in s'.events ensures Accounted(s', e) {
      assert Accounted(s, e);
      if u :| Creates(s, u, e) { assert Creates(s', u, e); }
    }
    forall u, v | u in s'.threads && v in s'.threads && u != v ensures Differ(s', u, v) {
      assert Differ(s, u, v);
    }
  }

  /** A step that leaves the events alone. */
  lemma PlainStep(s: State, k: Token, s': State, k': Token, t: int)
    requires InvWith(s, k) && SameEvents(s, s') && t in s.threads && t in s'.threads
        && s'.threads == s.threads[t := s'.threads[t]]
    requires HasEvent(s'.threads[t]) == HasEvent(s.threads[t]) && OwnEvent(s'.threads[t]) == OwnEvent(s.threads[t])
    requires Apart(s, k, s', k', t) && ThreadOk(s', k', t) && TokenOk(s', k')
    requires s'.LockCount - s.LockCount == Units(s'.threads[t]) - Units(s.threads[t])
    ensures InvWith(s', k')
  {
    SameEventsOk(s, s', t);
    SumUpdate(s.threads, t, s'.threads[t]);
    forall u | u in s'.threads ensures ThreadOk(s', k', u) {
      if u != t {
        assert ThreadOk(s, k, u);
        OtherKept(s, k, s', k', t, u);
      }
    }
  }

  /** A thread accounts for no more than there is. */
  lemma SumAtLeast(s: State, k: Token, t: int)
    requires InvWith(s, k) && t in s.threads
    ensures Units(s.threads[t]) <= s.LockCount + 1
  {
    assert ThreadOk(s, k, t);
    SumWithout(s.threads, t);
    forall u | u in s.threads - {t} ensures Units(s.threads[u]) >= 0 {
      assert ThreadOk(s, k, u);
    }
    SumNonNegative(s.threads - {t});
  }

  lemma {:induction false} SumNonNegative(threads: Threads)
    requires forall u :: u in threads ==> Units(threads[u]) >= 0
    ensures Sum(threads) >= 0
    decreases |threads|
  {
    if t :| t in threads {
      Smaller(threads, t);
      SumWithout(threads, t);
      SumNonNegative(threads - {t});
    }
  }

  /** A thread that has just appeared is idle. */
  lemma NewThread(s: State, k: Token, t: int)
    requires InvWith(s, k) && t > 0 && t !in s.threads
    ensures InvWith(Back(s, t, 0), k)
  {
    var s' := Back(s, t, 0);
    SumUpdate(s.threads, t, Thread(Idle, 0));
    forall u | u in s'.threads ensures ThreadOk(s', k, u) {
      if u != t { assert ThreadOk(s, k, u); }
    }
    forall e | e in s'.events ensures Accounted(s', e) {
      assert Accounted(s, e);
      if u :| Creates(s, u, e) { assert Creates(s', u, e); }
    }
    forall u, v | u in s'.threads && v in s'.threads && u != v ensures Differ(s', u, v) {
      if u != t && v != t { assert Differ(s, u, v); }
    }
  }

  /** The interlocked first step of a call. */
  lemma StartKeeps(s: State, k: Token, t: int, call: Call) returns (k': Token)
    requires InvWith(s, k) && t in s.threads && s.threads[t].pc == Idle
    ensures InvWith(Act(s, t, call), k')
  {
    assert ThreadOk(s, k, t);
    var s' := Act(s, t, call);
    k' := if s.LockCount == -1 && call != Leave then Held(t) else k;
    SumAtLeast(s, k, t);
    PlainStep(s, k, s', k', t);
  }

  /** Reads and tests: only the program counter moves. */
  lemma LookKeeps(s: State, k: Token, t: int, call: Call)
    requires InvWith(s, k) && t in s.threads
    requires s.threads[t].pc in {EnterTest, EnterRead, WaitTest, TryTest, LeaveRead, SignalTest}
        || s.threads[t].pc.CreateTest?
    ensures InvWith(Act(s, t, call), k)
  {
    assert ThreadOk(s, k, t);
    PlainStep(s, k, Act(s, t, call), k, t);
  }

  /** Writes of the owner to its own fields. */
  lemma WriteKeeps(s: State, k: Token, t: int, call: Call)
    requires InvWith(s, k) && t in s.threads
    requires s.threads[t].pc in {OwnerWrite, CountWrite, LeaveClear} || s.threads[t].pc.EnterWrite?
        || s.threads[t].pc.LeaveWrite?
    ensures InvWith(Act(s, t, call), k)
  {
    assert ThreadOk(s, k, t);
    PlainStep(s, k, Act(s, t, call), k, t);
  }

  /** The interlocked steps on the counter. */
  lemma CountKeeps(s: State, k: Token, t: int, call: Call) returns (k': Token)
    requires InvWith(s, k) && t in s.threads && s.threads[t].pc in {TryIncrement, LeaveInner, LeaveOuter}
    ensures InvWith(Act(s, t, call), k')
  {
    assert ThreadOk(s, k, t);
    SumAtLeast(s, k, t);
    k' := if s.threads[t].pc != LeaveOuter then k else if s.LockCount == 0 then Free else Releasing(t);
    PlainStep(s, k, Act(s, t, call), k', t);
  }

  /** A step that changes the events or the shared handle. */
  lemma EventStep(s: State, k: Token, s': State, k': Token, t: int)
    requires InvWith(s, k) && t in s.threads && t in s'.threads && s'.threads == s.threads[t := s'.threads[t]]
    requires Apart(s, k, s', k', t) && ThreadOk(s', k', t) && TokenOk(s', k') && EventsOk(s')
    requires forall u :: u in s.threads && u != t && HasEvent(s.threads[u]) ==> EventOk(s', s.threads[u])
    requires s'.LockCount == s.LockCount && Units(s'.threads[t]) == Units(s.threads[t])
    ensures InvWith(s', k')
  {
    SumUpdate(s.threads, t, s'.threads[t]);
    forall u | u in s'.threads ensures ThreadOk(s', k', u) {
      if u != t { OtherKept(s, k, s', k', t, u); }
    }
  }

  /** Waking up and signalling move the right to the section out of the event and into it. */
  lemma TokenKeeps(s: State, k: Token, t: int, call: Call) returns (k': Token)
    requires InvWith(s, k) && t in s.threads && s.threads[t].pc in {Wait, Signal}
    ensures InvWith(Act(s, t, call), k')
    ensures s.threads[t].pc == Signal ==> s.LockSemaphore in s.events && !s.events[s.LockSemaphore]
  {
    assert ThreadOk(s, k, t);
    var s' := Act(s, t, call);
    k' := if s.threads[t].pc == Signal then Signalled else if k == Signalled then Held(t) else k;
    if s' != s {
      forall u | u in s.threads && u != t && HasEvent(s.threads[u]) ensures EventOk(s', s.threads[u]) {
        assert ThreadOk(s, k, u);
      }
      forall e | e in s'.events ensures Accounted(s', e) {
        assert Accounted(s, e);
        if u :| Creates(s, u, e) { assert Creates(s', u, e); }
      }
      forall u, v | u in s'.threads && v in s'.threads && u != v ensures Differ(s', u, v) {
        assert Differ(s, u, v);
      }
      EventStep(s, k, s', k', t);
    }
  }

  /** Creating an event, trying to share it, and closing it when another thread was first. */
  lemma CreateKeeps(s: State, k: Token, t: int, call: Call)
    requires InvWith(s, k) && t in s.threads
    requires s.threads[t].pc.CreateEvent? || s.threads[t].pc.CreateSwap? || s.threads[t].pc.CreateClose?
    ensures InvWith(Act(s, t, call), k)
  {
    assert ThreadOk(s, k, t);
    var s' := Act(s, t, call);
    forall u | u in s.threads && u != t && HasEvent(s.threads[u]) ensures EventOk(s', s.threads[u]) {
      assert ThreadOk(s, k, u);
      assert Differ(s, t, u);
    }
    CreateEventsOk(s, k, t, call);
    EventStep(s, k, s', k, t);
  }

  lemma CreateEventsOk(s: State, k: Token, t: int, call: Call)
    requires InvWith(s, k) && t in s.threads
    requires s.threads[t].pc.CreateEvent? || s.threads[t].pc.CreateSwap? || s.threads[t].pc.CreateClose?
    ensures EventsOk(Act(s, t, call))
  {
    assert ThreadOk(s, k, t);
    var s' := Act(s, t, call);
    forall e | e in s'.events ensures Accounted(s', e) {
      if e in s.events {
        assert Accounted(s, e);
        if u :| Creates(s, u, e) { assert u != t ==> Creates(s', u, e); }
      }
      if HasEvent(s'.threads[t]) && e == OwnEvent(s'.threads[t]) { assert Creates(s', t, e); }
    }
    forall u, v | u in s'.threads && v in s'.threads && u != v ensures Differ(s', u, v) {
      assert Differ(s, u, v);
      assert ThreadOk(s, k, u) && ThreadOk(s, k, v);
    }
  }

  /** Every atomic step of every thread keeps the invariant. */
  lemma StepKeeps(s: State, t: int, call: Call)
    requires Inv(s)
    ensures Inv(Act(s, t, call))
  {
    var k :| InvWith(s, k);
    var s' := Act(s, t, call);
    var k' := k;
    if t > 0 && t !in s.threads {
      NewThread(s, k, t);
    } else if t > 0 {
      match s.threads[t].pc
      case Idle => k' := StartKeeps(s, k, t, call);
      case EnterTest | EnterRead | WaitTest | TryTest | LeaveRead | SignalTest | CreateTest(_) => LookKeeps(s, k, t,
          call);
      case OwnerWrite | CountWrite | LeaveClear | EnterWrite(_) | LeaveWrite(_) => WriteKeeps(s, k, t, call);
      case TryIncrement | LeaveInner | LeaveOuter => k' := CountKeeps(s, k, t, call);
      case Wait | Signal => k' := TokenKeeps(s, k, t, call);
      case CreateEvent(_) | CreateSwap(_, _) | CreateClose(_, _) => CreateKeeps(s, k, t, call);
    }
    assert InvWith(s', k');
  }

  /** Whatever the schedule, the invariant holds after every step. */
  lemma {:induction false} RunKeeps(s: State, moves: seq<Move>)
    requires Inv(s)
    ensures Inv(Run(s, moves))
    decreases |moves|
  {
    if moves != [] {
      StepKeeps(s, moves[0].thread, moves[0].call);
      RunKeeps(Act(s, moves[0].thread, moves[0].call), moves[1..]);
    }
  }

  // ----- what holds in every reachable state

  function After(moves: seq<Move>): State {
    Run(Initial(), moves)
  }

  lemma Reachable(moves: seq<Move>)
    ensures Inv(After(moves))
  {
    InitialInv();
    RunKeeps(Initial(), moves);
  }

  ghost function Owners(s: State): set<int> {
    set t | t in s.threads && Owns(s.threads[t])
  }

  ghost function Releasers(s: State): set<int> {
    set t | t in s.threads && Releases(s.threads[t])
  }

  ghost function Waiters(s: State): set<int> {
    WaitersIn(s.threads)
  }

  predicate EventSet(s: State) {
    s.LockSemaphore in s.events && s.events[s.LockSemaphore]
  }

  /** At most one thread is between its acquisition and the decrement that releases it. */
  lemma MutualExclusion(moves: seq<Move>, t: int, u: int)
    requires t in Owners(After(moves)) && u in Owners(After(moves))
    ensures t == u
  {
    Reachable(moves);
    var s := After(moves);
    var k :| InvWith(s, k);
    assert ThreadOk(s, k, t) && ThreadOk(s, k, u);
  }

  /** The unsynchronised test of OwningThread succeeds for the true owner and for nobody else. */
  lemma OwnerTest(moves: seq<Move>, t: int)
    requires t in After(moves).threads && After(moves).threads[t].pc in {EnterTest, TryTest}
    ensures After(moves).OwningThread == t <==> After(moves).threads[t].depth > 0
  {
    Reachable(moves);
    var s := After(moves);
    var k :| InvWith(s, k);
    assert ThreadOk(s, k, t);
  }

  /** While the counter is not negative, exactly one holder, thread about to signal, or signalled event
      carries the right to the section; otherwise none does. No wakeup is lost and none is doubled. */
  lemma OneToken(moves: seq<Move>)
    ensures
      var s := After(moves);
      |Owners(s)| + |Releasers(s)| + (if EventSet(s) then 1 else 0) == (if s.LockCount >= 0 then 1 else 0)
  {
    Reachable(moves);
    var s := After(moves);
    var k :| InvWith(s, k);
    TokenSets(s, k);
  }

  /** Where the right to the section is, as sets of threads. */
  lemma TokenSets(s: State, k: Token)
    requires InvWith(s, k)
    ensures Owners(s) == if k.Held? then {k.thread} else {}
    ensures Releasers(s) == if k.Releasing? then {k.thread} else {}
  {
    forall t ensures t in Owners(s) <==> k.Held? && t == k.thread {
      if t in s.threads { assert ThreadOk(s, k, t); }
    }
    forall t ensures t in Releasers(s) <==> k.Releasing? && t == k.thread {
      if t in s.threads { assert ThreadOk(s, k, t); }
    }
    assert Owners(s) == if k.Held? then {k.thread} else {};
    assert Releasers(s) == if k.Releasing? then {k.thread} else {};
  }

  /** The event is never signalled while it is still signalled. */
  lemma NoDoubleSignal(moves: seq<Move>, t: int)
    requires t in After(moves).threads && After(moves).threads[t].pc == Signal
    ensures After(moves).LockSemaphore in After(moves).events && !EventSet(After(moves))
  {
    Reachable(moves);
    var k :| InvWith(After(moves), k);
    var k' := TokenKeeps(After(moves), k, t, Enter);
  }

  /** A thread that has reached its wait, with nobody in the section and nobody about to signal, finds
      the event signalled and gets the section. */
  lemma NoLostWakeup(moves: seq<Move>, t: int, call: Call)
    requires t in After(moves).threads && After(moves).threads[t].pc == Wait
    requires Owners(After(moves)) == {} && Releasers(After(moves)) == {}
    ensures Owners(Act(After(moves), t, call)) == {t}
  {
    Reachable(moves);
    OneToken(moves);
    var s := After(moves);
    var k :| InvWith(s, k);
    SumAtLeast(s, k, t);
    assert ThreadOk(s, k, t);
    assert forall u :: u in s.threads ==> u !in Owners(s);
  }

  /** LockCount + 1 is the owner's depth, an acquisition it has under way included, plus the number of
      threads that have incremented the counter and have yet to get the section. */
  lemma CounterBalance(moves: seq<Move>)
    ensures
      var s := After(moves);
      && (Owners(s) == {} ==> s.LockCount + 1 == |Waiters(s)|)
      && (forall t :: t in Owners(s) ==> s.LockCount + 1 == Units(s.threads[t]) + |Waiters(s)|)
  {
    Reachable(moves);
    var s := After(moves);
    var k :| InvWith(s, k);
    TokenSets(s, k);
    forall t | t in s.threads ensures DepthOk(s.threads[t]) && t > 0 && (Owns(s.threads[t]) <==> k == Held(t)) {
      assert ThreadOk(s, k, t);
    }
    SplitSum(s.threads, if k.Held? then k.thread else 0);
  }

  ghost function WaitersIn(threads: Threads): set<int> {
    set t | t in threads && Waits(threads[t])
  }

  lemma {:induction false} SplitSum(threads: Threads, owner: int)
    requires forall t :: t in threads ==> DepthOk(threads[t]) && t > 0 && (Owns(threads[t]) <==> t == owner)
    ensures Sum(threads) == (if owner in threads then Units(threads[owner]) else 0) + |WaitersIn(threads)|
    decreases |threads|
  {
    if t :| t in threads {
      Smaller(threads, t);
      SumWithout(threads, t);
      if t == owner {
        var rest := threads - {t};
        assert WaitersIn(threads) == WaitersIn(rest);
        SplitSumOwnerless(rest);
      } else {
        SplitSum(threads - {t}, owner);
        WaitersWithout(threads, t);
      }
    } else {
      NoWaiters(threads);
    }
  }

  lemma NoWaiters(threads: Threads)
    requires forall t :: t in threads ==> !Waits(threads[t])
    ensures WaitersIn(threads) == {}
  {
    forall t ensures t !in WaitersIn(threads) {
    }
  }

  lemma WaitersWithout(threads: Threads, t: int)
    requires t in threads && DepthOk(threads[t]) && !Owns(threads[t])
    ensures |WaitersIn(threads)| == |WaitersIn(threads - {t})| + Units(threads[t])
  {
    if Waits(threads[t]) {
      assert WaitersIn(threads) == WaitersIn(threads - {t}) + {t};
    } else {
      assert WaitersIn(threads) == WaitersIn(threads - {t});
    }
  }

  lemma {:induction false} SplitSumOwnerless(threads: Threads)
    requires forall t :: t in threads ==> DepthOk(threads[t]) && !Owns(threads[t])
    ensures Sum(threads) == |WaitersIn(threads)|
    decreases |threads|
  {
    if t :| t in threads {
      Smaller(threads, t);
      SumWithout(threads, t);
      WaitersWithout(threads, t);
      SplitSumOwnerless(threads - {t});
    } else {
      NoWaiters(threads);
    }
  }

  /** Once an event is shared it stays the one that all threads use, whatever they do. */
  lemma {:induction false} EventStays(s: State, moves: seq<Move>)
    requires s.LockSemaphore != 0
    ensures Run(s, moves).LockSemaphore == s.LockSemaphore
    decreases |moves|
  {
    if moves != [] { EventStays(Act(s, moves[0].thread, moves[0].call), moves[1..]); }
  }

  /** The losers of the creation race close what they created: when no thread is in the middle of it,
      the shared event is the only one open, and whoever waits or signals finds it there. */
  lemma OneEvent(moves: seq<Move>)
    requires forall t :: t in After(moves).threads ==> !HasEvent(After(moves).threads[t])
    ensures After(moves).events.Keys == if After(moves).LockSemaphore == 0 then {} else {After(moves).LockSemaphore}
    ensures forall t :: t in After(moves).threads && After(moves).threads[t].pc in {Wait, Signal} ==>
              After(moves).LockSemaphore in After(moves).events
  {
    Reachable(moves);
    var s := After(moves);
    var k :| InvWith(s, k);
    forall t | t in s.threads ensures EventOk(s, s.threads[t]) {
      assert ThreadOk(s, k, t);
    }
    forall e ensures e in s.events <==> e == s.LockSemaphore && e != 0 {
      if e in s.events {
        assert Accounted(s, e);
        assert forall u :: !Creates(s, u, e);
      }
    }
  }

  /** RtlGetCriticalSectionRecursionCount (rtl/critical.c:650-668). */
  function GetRecursionCount(s: State, t: int): int {
    if s.OwningThread == t then s.RecursionCount else 0
  }

  /** Between calls, a thread is told how often it has acquired the section and not yet left it. */
  lemma RecursionIsDepth(moves: seq<Move>, t: int)
    requires t in After(moves).threads && After(moves).threads[t].pc == Idle
    ensures GetRecursionCount(After(moves), t) == After(moves).threads[t].depth
  {
    Reachable(moves);
    var s := After(moves);
    var k :| InvWith(s, k);
    assert ThreadOk(s, k, t);
  }

  lemma OwnerIsNamed(s: State, k: Token)
    requires InvWith(s, k) && s.OwningThread != 0
    ensures s.OwningThread in s.threads && Named(s.threads[s.OwningThread])
  {
    assert ThreadOk(s, k, s.OwningThread);
  }

  /** When every thread has left, the record is as it was initialised, but for the event. */
  lemma Quiet(moves: seq<Move>)
    requires forall t :: t in After(moves).threads ==> After(moves).threads[t] == Thread(Idle, 0)
    ensures
      var s := After(moves);
      s.LockCount == -1 && s.OwningThread == 0 && s.RecursionCount == 0 && !EventSet(s)
  {
    Reachable(moves);
    CounterBalance(moves);
    var s := After(moves);
    var k :| InvWith(s, k);
    TokenSets(s, k);
    NoWaiters(s.threads);
    if s.OwningThread != 0 { OwnerIsNamed(s, k); }
  }
}
