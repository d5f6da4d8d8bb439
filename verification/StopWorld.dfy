/** Stopping and restarting all threads by signals.  Threads are numbered; one further thread, the
    one that collects, sends the signals.  Every step is one access to shared data. */
module StopWorld {
  import opened Prelude

  /** Is one signal used to suspend and to restart?  Can a signal of the client that is not blocked
      wake a thread that waits in its handler? */
  datatype Mode = Mode(same: bool, early: bool)

  /** Where a thread is in the suspend handler. */
  datatype Pc = Running | Loaded | Stored | Posted | Waiting | Woken | Leaving

  /** `my` is my_stop_count and `last` last_stop_count; `sp` is the stop count for which the stack
      pointer was last published; `pending` says that the suspend signal waits for delivery. */
  datatype Thread = Thread(pc: Pc, my: nat, last: nat, sp: nat, pending: bool)

  /** Where the collecting thread is. */
  datatype Boss = Idle | Suspending(i: nat) | Stopping | Stopped | Restarting(i: nat) | Joining

  /** `n` counts the threads whose acknowledgement is awaited; `sent` are those that were sent a
      suspend signal, and `out` those that are finished or blocked. */
  datatype State = State(count: nat, sem: nat, threads: seq<Thread>, boss: Boss, n: nat, sent: set<nat>, out: set<nat>)

  datatype Move =
    | Collect(skip: bool)   // the collecting thread; may find a thread finished or blocked
    | Handle(t: nat)        // a thread, in its handler or about to enter it
    | Nested(t: nat)        // a handler that interrupts the waiting one and returns at once

  function Init(n: nat): State {
    State(1, 0, seq(n, _ => Thread(Running, 0, 0, 0, false)), Idle, 0, {}, {})
  }

  function With(s: State, t: nat, th: Thread): State
    requires t < |s.threads|
  {
    s.(threads := s.threads[t := th])
  }

  /** GC_suspend_handler_inner, one step of thread `t`.  With two signals the restart signal may
      wake a waiting thread at any time; with one, that is left to the nested handler. */
  function HandleStep(mode: Mode, s: State, t: nat): State
    requires t < |s.threads|
  {
    var th := s.threads[t];
    match th.pc
    case Running => if th.pending then With(s, t, th.(pc := Loaded, my := s.count, pending := false)) else s
    case Loaded =>
      if th.my % 2 == 1 || th.last - th.last % 2 == th.my then With(s, t, th.(pc := Running))
      else With(s, t, th.(pc := Stored, sp := th.my))
    case Stored => With(s, t, th.(pc := Posted)).(sem := s.sem + 1)
    case Posted => With(s, t, th.(pc := Waiting, last := th.my))
    case Waiting => if mode.same && !mode.early then s else With(s, t, th.(pc := Woken))
    case Woken => With(s, t, th.(pc := if s.count == th.my then Waiting else Leaving))
    case Leaving => With(s, t, th.(pc := Running)).(sem := s.sem + if mode.same then 1 else 0)
  }

  /** One step of GC_stop_world or GC_start_world.  Threads do not become blocked or unblocked in
      between, because that takes the lock. */
  function CollectStep(mode: Mode, s: State, skip: bool): State {
    match s.boss
    case Idle => s.(count := s.count + 1, boss := Suspending(0), n := 0, sent := {}, out := {})
    case Suspending(i) =>
      if i >= |s.threads| then s.(boss := Stopping)
      else if skip then s.(boss := Suspending(i + 1), out := s.out + {i})
      else if s.threads[i].last == s.count then s.(boss := Suspending(i + 1))
      else With(s, i, s.threads[i].(pending := true)).(boss := Suspending(i + 1), n := s.n + 1, sent := s.sent + {i})
    case Stopping => Await(s, Stopped)
    case Stopped => s.(count := s.count + 1, boss := Restarting(0), n := 0)
    case Restarting(i) =>
      if i >= |s.threads| then s.(boss := if mode.same then Joining else Idle)
      else if i in s.out then s.(boss := Restarting(i + 1))
      else
        var th := s.threads[i];
        With(s, i, th.(pending := th.pending || mode.same)).(boss := Restarting(i + 1), n := s.n + 1)
    case Joining => Await(s, Idle)
  }

  /** suspend_restart_barrier. */
  function Await(s: State, next: Boss): State {
    if s.n == 0 then s.(boss := next)
    else if s.sem == 0 then s
    else s.(sem := s.sem - 1, n := s.n - 1)
  }

  /** Does a suspend handler that begins now have nothing to do? */
  predicate ReturnsAtOnce(s: State, t: nat)
    requires t < |s.threads|
  {
    s.count % 2 == 1 || s.threads[t].last - s.threads[t].last % 2 == s.count
  }

  function Step(mode: Mode, s: State, m: Move): State {
    match m
    case Collect(skip) => CollectStep(mode, s, skip)
    case Handle(t) => if t < |s.threads| then HandleStep(mode, s, t) else s
    case Nested(t) =>
      if mode.same && t < |s.threads| && s.threads[t].pc == Waiting && s.threads[t].pending && ReturnsAtOnce(s, t)
      then With(s, t, s.threads[t].(pc := Woken, pending := false)) else s
  }

  function Run(mode: Mode, s: State, moves: seq<Move>): State {
    if moves == [] then s else Step(mode, Run(mode, s, moves[..|moves| - 1]), moves[|moves| - 1])
  }

  /** A thread that has stopped for the current stop count and published its stack pointer. */
  predicate IsStopped(th: Thread, count: nat) {
    (th.pc == Posted || th.pc == Waiting || th.pc == Woken) && th.my == count && th.sp == count
  }

  /** When GC_stop_world has returned, every thread that was sent a signal has stopped. */
  ghost predicate Safe(s: State) {
    s.boss == Stopped ==>
      s.count % 2 == 0 && forall t :: t in s.sent && t < |s.threads| ==> IsStopped(s.threads[t], s.count)
  }

  // ----- Different signals -----

  /** A thread that has nothing to do with the current stop count. */
  predicate Elsewhere(th: Thread, count: nat) {
    && th.last < count && th.last % 2 == 0
    && (th.pc == Running || (th.my < count && th.my % 2 == 0
                             && (th.pc == Posted || th.pc == Waiting || th.pc == Woken || th.pc == Leaving)))
  }

  /** A thread on its way through the handler for the current stop count. */
  predicate OnItsWay(th: Thread, count: nat) {
    && !th.pending && th.my == count && th.last % 2 == 0 && th.last <= count
    && match th.pc
       case Loaded => th.last < count
       case Stored => th.last < count && th.sp == count
       case Posted => th.sp == count
       case Waiting => th.sp == count
       case Woken => th.sp == count
       case _ => false
  }

  predicate ThreadOk(th: Thread, count: nat, sent: bool) {
    if sent then (th.pending && Elsewhere(th, count)) || OnItsWay(th, count)
    else !th.pending && Elsewhere(th, count)
  }

  /** The threads that have acknowledged the current stop. */
  ghost function Acked(s: State): set<nat> {
    set t | t in s.sent && t < |s.threads| && IsStopped(s.threads[t], s.count)
  }

  /** The threads that were sent a signal for the current stop count. */
  ghost function Current(s: State): set<nat> {
    if s.boss.Idle? || s.boss.Restarting? then {} else s.sent
  }

  ghost predicate Counts(s: State) {
    match s.boss
    case Idle => s.sem == 0 && s.count % 2 == 1
    case Suspending(i) =>
      s.n == |s.sent| && s.sem == |Acked(s)| && s.count % 2 == 0 && forall t :: t in s.sent ==> t < i
    case Stopping => s.n <= |s.sent| && s.sem + |s.sent| - s.n == |Acked(s)| && s.count % 2 == 0
    case Stopped => s.n == 0 && s.sem + |s.sent| == |Acked(s)| && s.count % 2 == 0
    case Restarting(i) => s.sem == 0 && s.count % 2 == 1
    case Joining => false
  }

  ghost predicate ThreadsOk(s: State) {
    && (forall t :: t in s.sent ==> t < |s.threads|)
    && forall t {:trigger s.threads[t]} :: 0 <= t < |s.threads| ==> ThreadOk(s.threads[t], s.count, t in Current(s))
  }

  ghost predicate Inv(s: State) {
    Counts(s) && ThreadsOk(s)
  }

  /** After the barrier all acknowledgements are in. */
  lemma AllAcked(s: State)
    requires Inv(s) && s.boss == Stopped
    ensures Acked(s) == s.sent && s.sem == 0
  {
    SubsetSize(Acked(s), s.sent);
  }

  lemma InitInv(n: nat)
    ensures Inv(Init(n))
  {
  }

  /** A step of thread `t` that neither changes whether it is stopped nor the counters. */
  lemma QuietStep(s: State, t: nat, th: Thread)
    requires Inv(s) && t < |s.threads| && ThreadOk(th, s.count, t in Current(s))
    requires IsStopped(th, s.count) == IsStopped(s.threads[t], s.count)
    ensures Inv(With(s, t, th))
  {
    var to := With(s, t, th);
    assert Acked(to) == Acked(s);
    forall u {:trigger to.threads[u]} | 0 <= u < |to.threads|
      ensures ThreadOk(to.threads[u], to.count, u in Current(to))
    {
      assert u != t ==> to.threads[u] == s.threads[u];
    }
  }

  lemma PostStep(mode: Mode, s: State, t: nat)
    requires !mode.same && Inv(s) && t < |s.threads| && s.threads[t].pc == Stored
    ensures Inv(HandleStep(mode, s, t))
  {
    var th := s.threads[t];
    assert ThreadOk(th, s.count, t in Current(s));
    var to := HandleStep(mode, s, t);
    assert Acked(to) == Acked(s) + {t};
    forall u {:trigger to.threads[u]} | 0 <= u < |to.threads|
      ensures ThreadOk(to.threads[u], to.count, u in Current(to))
    {
      assert u != t ==> to.threads[u] == s.threads[u];
    }
  }

  lemma HandleInv(mode: Mode, s: State, t: nat)
    requires !mode.same && Inv(s) && t < |s.threads|
    ensures Inv(HandleStep(mode, s, t))
  {
    var th := s.threads[t];
    assert ThreadOk(th, s.count, t in Current(s));
    if th.pc == Stored {
      PostStep(mode, s, t);
    } else {
      var to := HandleStep(mode, s, t).threads[t];
      assert HandleStep(mode, s, t) == With(s, t, to);
      if t in Current(s) {
        EvenPhase(s, t);
      }
      QuietStep(s, t, to);
    }
  }

  lemma EvenPhase(s: State, t: nat)
    requires Inv(s) && t in Current(s)
    ensures s.count % 2 == 0
  {
  }

  lemma SignalInv(mode: Mode, s: State, i: nat)
    requires !mode.same && Inv(s) && s.boss == Suspending(i) && i < |s.threads|
    ensures Inv(CollectStep(mode, s, false)) && s.threads[i].last != s.count
  {
    var th := s.threads[i];
    assert ThreadOk(th, s.count, i in Current(s));
    var to := CollectStep(mode, s, false);
    assert Acked(to) == Acked(s);
    forall u {:trigger to.threads[u]} | 0 <= u < |to.threads|
      ensures ThreadOk(to.threads[u], to.count, u in Current(to))
    {
      assert u != i ==> to.threads[u] == s.threads[u];
    }
  }

  /** When the stop count goes on, every thread is in no or in an older stop. */
  lemma NextCount(s: State)
    requires Inv(s) && (s.boss == Idle || s.boss == Stopped)
    ensures forall t {:trigger s.threads[t]} :: 0 <= t < |s.threads| ==> ThreadOk(s.threads[t], s.count + 1, false)
    ensures s.sem == 0
  {
    if s.boss == Stopped {
      AllAcked(s);
    }
    forall t {:trigger s.threads[t]} | 0 <= t < |s.threads|
      ensures ThreadOk(s.threads[t], s.count + 1, false)
    {
      assert ThreadOk(s.threads[t], s.count, t in Current(s));
      assert s.boss == Stopped && t in s.sent ==> t in Acked(s);
    }
  }

  lemma RestartInv(mode: Mode, s: State, i: nat, skip: bool)
    requires !mode.same && Inv(s) && s.boss == Restarting(i)
    ensures Inv(CollectStep(mode, s, skip))
  {
    var to := CollectStep(mode, s, skip);
    assert to.threads == s.threads;
  }

  lemma CollectInv(mode: Mode, s: State, skip: bool)
    requires !mode.same && Inv(s)
    ensures Inv(CollectStep(mode, s, skip))
  {
    var to := CollectStep(mode, s, skip);
    match s.boss
    case Idle =>
      NextCount(s);
      assert Acked(to) == {};
    case Suspending(i) =>
      if i < |s.threads| && !skip {
        SignalInv(mode, s, i);
      } else {
        assert Acked(to) == Acked(s);
      }
    case Stopping =>
      assert Acked(to) == Acked(s);
    case Stopped =>
      NextCount(s);
    case Restarting(i) =>
      RestartInv(mode, s, i, skip);
    case Joining =>
  }

  lemma StepInv(mode: Mode, s: State, m: Move)
    requires !mode.same && Inv(s)
    ensures Inv(Step(mode, s, m))
  {
    match m
    case Collect(skip) =>
      CollectInv(mode, s, skip);
    case Handle(t) =>
      if t < |s.threads| {
        HandleInv(mode, s, t);
      }
    case Nested(t) =>
  }

  lemma {:induction false} RunInv(mode: Mode, n: nat, moves: seq<Move>)
    requires !mode.same
    ensures Inv(Run(mode, Init(n), moves))
  {
    if moves == [] {
      InitInv(n);
    } else {
      RunInv(mode, n, moves[..|moves| - 1]);
      StepInv(mode, Run(mode, Init(n), moves[..|moves| - 1]), moves[|moves| - 1]);
    }
  }

  /** With different signals GC_stop_world is safe, whatever the threads do. */
  lemma DistinctSafe(mode: Mode, n: nat, moves: seq<Move>)
    requires !mode.same
    ensures Safe(Run(mode, Init(n), moves))
  {
    var s := Run(mode, Init(n), moves);
    RunInv(mode, n, moves);
    if s.boss == Stopped {
      AllAcked(s);
      forall t | t in s.sent && t < |s.threads|
        ensures IsStopped(s.threads[t], s.count)
      {
        assert t in Acked(s);
      }
    }
  }

  /** With different signals no thread is passed over because it seems to have stopped already. */
  lemma DistinctReachesAll(mode: Mode, n: nat, moves: seq<Move>, i: nat)
    requires !mode.same && Run(mode, Init(n), moves).boss == Suspending(i) && i < |Run(mode, Init(n), moves).threads|
    ensures i in CollectStep(mode, Run(mode, Init(n), moves), false).sent
  {
    RunInv(mode, n, moves);
    SignalInv(mode, Run(mode, Init(n), moves), i);
  }

  /** A thread that has stopped stays so until the stop count changes. */
  lemma StaysStopped(mode: Mode, s: State, m: Move, t: nat)
    requires t < |s.threads| && IsStopped(s.threads[t], s.count) && Step(mode, s, m).count == s.count
    ensures |Step(mode, s, m).threads| == |s.threads|
    ensures IsStopped(Step(mode, s, m).threads[t], s.count)
  {
  }

  // ----- One signal, and no early wake-ups -----

  /** A thread outside its handler. */
  predicate Quiet(th: Thread, count: nat) {
    th.pc == Running && !th.pending && th.last < count && th.last % 2 == 0
  }

  /** A thread that was sent a signal to stop. */
  predicate Stops(th: Thread, count: nat) {
    Quiet(th.(pending := false), count) || (OnItsWay(th, count) && th.pc != Woken)
  }

  /** A stopped thread, and whether it has been sent the signal to go on. */
  predicate Halted(th: Thread, count: nat, released: bool) {
    && (th.pc == Posted || th.pc == Waiting) && th.pending == released
    && th.my + 1 == count && th.last < count && th.last % 2 == 0
  }

  /** A thread that was sent a signal to go on. */
  predicate GoesOn(th: Thread, count: nat) {
    || Halted(th, count, true)
    || ((th.pc == Woken || th.pc == Leaving) && !th.pending && th.my + 1 == count && th.last < count
        && th.last % 2 == 0)
    || Quiet(th, count)
  }

  predicate ThreadOne(s: State, t: nat, th: Thread) {
    if t !in s.sent then Quiet(th, s.count)
    else match s.boss
      case Idle => Quiet(th, s.count)
      case Restarting(i) => if t < i then GoesOn(th, s.count) else Halted(th, s.count, false)
      case Joining => GoesOn(th, s.count)
      case _ => Stops(th, s.count) && (th.pc == Running ==> th.pending)
  }

  /** Has the thread given the acknowledgement that is awaited? */
  predicate HasAcked(s: State, th: Thread) {
    if s.boss.Restarting? || s.boss.Joining? then th.pc == Running else IsStopped(th, s.count)
  }

  ghost function AllAcks(s: State): set<nat> {
    set t | t in s.sent && t < |s.threads| && HasAcked(s, s.threads[t])
  }

  /** The threads that were sent a restart signal when it is the turn of thread `i`. */
  ghost function Before(s: State, i: nat): set<nat> {
    set t | t in s.sent && t < i
  }

  /** The first `i` threads were sent a signal unless they are out. */
  ghost predicate Chosen(s: State, i: nat) {
    forall t :: 0 <= t < i ==> (t in s.sent <==> t !in s.out)
  }

  ghost predicate CountsOne(s: State) {
    match s.boss
    case Idle => s.sem == 0 && s.count % 2 == 1
    case Suspending(i) =>
      && i <= |s.threads| && Chosen(s, i) && (forall t :: t in s.sent || t in s.out ==> t < i)
      && s.count % 2 == 0 && s.n == |s.sent| && s.sem == |AllAcks(s)|
    case Stopping =>
      Chosen(s, |s.threads|) && s.count % 2 == 0 && s.n <= |s.sent| && s.sem + |s.sent| - s.n == |AllAcks(s)|
    case Stopped => Chosen(s, |s.threads|) && s.count % 2 == 0 && s.n == 0 && s.sem + |s.sent| == |AllAcks(s)|
    case Restarting(i) =>
      i <= |s.threads| && Chosen(s, |s.threads|) && s.count % 2 == 1 && s.n == |Before(s, i)| && s.sem == |AllAcks(s)|
    case Joining => s.count % 2 == 1 && s.n <= |s.sent| && s.sem + |s.sent| - s.n == |AllAcks(s)|
  }

  ghost predicate OneInv(s: State) {
    CountsOne(s) && AllOne(s)
  }

  ghost predicate AllOne(s: State) {
    && (forall t :: t in s.sent ==> t < |s.threads|)
    && forall t {:trigger s.threads[t]} :: 0 <= t < |s.threads| ==> ThreadOne(s, t, s.threads[t])
  }

  lemma OneInit(n: nat)
    ensures OneInv(Init(n))
  {
  }

  /** A step of one thread; an acknowledgement raises the semaphore. */
  lemma OneThread(s: State, t: nat, th: Thread)
    requires OneInv(s) && t < |s.threads| && ThreadOne(s, t, th)
    requires t in s.sent && HasAcked(s, s.threads[t]) ==> HasAcked(s, th)
    ensures var acks := if t in s.sent && HasAcked(s, th) && !HasAcked(s, s.threads[t]) then 1 else 0;
            OneInv(With(s, t, th).(sem := s.sem + acks))
  {
    hide HasAcked;
    hide ThreadOne;
    hide AllOne;
    hide AllAcks;
    var acks := if t in s.sent && HasAcked(s, th) && !HasAcked(s, s.threads[t]) then 1 else 0;
    ThreadsOne(s, t, th, s.sem + acks);
    AcksOne(s, t, th, s.sem + acks);
    var to := With(s, t, th).(sem := s.sem + acks);
    assert s.boss.Restarting? ==> Before(to, s.boss.i) == Before(s, s.boss.i);
    if s.boss == Idle && acks == 1 {
      IdleNoAck(s, t, th);
    }
  }

  lemma ThreadsOne(s: State, t: nat, th: Thread, sem: nat)
    requires AllOne(s) && t < |s.threads| && ThreadOne(s, t, th)
    ensures AllOne(With(s, t, th).(sem := sem))
  {
    hide ThreadOne;
    var to := With(s, t, th).(sem := sem);
    forall u {:trigger to.threads[u]} | 0 <= u < |to.threads|
      ensures ThreadOne(to, u, to.threads[u])
    {
      SamePhase(s, to, u, to.threads[u]);
      assert u != t ==> to.threads[u] == s.threads[u];
    }
  }

  lemma AcksOne(s: State, t: nat, th: Thread, sem: nat)
    requires t < |s.threads| && (t in s.sent && HasAcked(s, s.threads[t]) ==> HasAcked(s, th))
    ensures var more := t in s.sent && HasAcked(s, th) && !HasAcked(s, s.threads[t]);
            |AllAcks(With(s, t, th).(sem := sem))| == |AllAcks(s)| + if more then 1 else 0
  {
    hide HasAcked;
    var to := With(s, t, th).(sem := sem);
    var more := t in s.sent && HasAcked(s, th) && !HasAcked(s, s.threads[t]);
    forall u | 0 <= u < |s.threads|
      ensures HasAcked(to, to.threads[u]) == if u == t then HasAcked(s, th) else HasAcked(s, s.threads[u])
    {
      SamePhase(s, to, u, to.threads[u]);
    }
    assert AllAcks(to) == AllAcks(s) + if more then {t} else {};
  }

  lemma IdleNoAck(s: State, t: nat, th: Thread)
    requires s.boss == Idle && ThreadOne(s, t, th)
    ensures !HasAcked(s, th)
  {
  }

  /** What is asked of a thread depends on the collecting thread only. */
  lemma SamePhase(s: State, to: State, t: nat, th: Thread)
    requires to.boss == s.boss && to.count == s.count && to.sent == s.sent
    ensures HasAcked(to, th) == HasAcked(s, th) && ThreadOne(to, t, th) == ThreadOne(s, t, th)
  {
  }

  const ONE := Mode(true, false)

  lemma Parity(s: State)
    requires CountsOne(s)
    ensures if s.boss == Idle || s.boss.Restarting? || s.boss.Joining? then s.count % 2 == 1 else s.count % 2 == 0
  {
  }

  lemma HandleOne(s: State, t: nat)
    requires t < |s.threads| && ThreadOne(s, t, s.threads[t])
    requires if s.boss == Idle || s.boss.Restarting? || s.boss.Joining? then s.count % 2 == 1 else s.count % 2 == 0
    ensures var to := HandleStep(ONE, s, t);
            var th := to.threads[t];
            && ThreadOne(s, t, th) && (t in s.sent && HasAcked(s, s.threads[t]) ==> HasAcked(s, th))
            && var acks := if t in s.sent && HasAcked(s, th) && !HasAcked(s, s.threads[t]) then 1 else 0;
               to == With(s, t, th).(sem := s.sem + acks)
  {
  }

  lemma OneHandle(s: State, t: nat)
    requires OneInv(s) && t < |s.threads|
    ensures OneInv(HandleStep(ONE, s, t))
  {
    hide HasAcked;
    hide ThreadOne;
    hide CountsOne;
    hide HandleStep;
    assert ThreadOne(s, t, s.threads[t]);
    Parity(s);
    HandleOne(s, t);
    OneThread(s, t, HandleStep(ONE, s, t).threads[t]);
  }

  /** Nested handlers have nothing to do: no thread is sent a suspend signal while it waits. */
  lemma OneNested(s: State, t: nat)
    requires OneInv(s) && t < |s.threads| && s.threads[t].pc == Waiting && s.threads[t].pending
    ensures ReturnsAtOnce(s, t)
    ensures OneInv(Step(ONE, s, Nested(t)))
  {
    assert ThreadOne(s, t, s.threads[t]);
    Parity(s);
    hide CountsOne;
    OneThread(s, t, s.threads[t].(pc := Woken, pending := false));
  }

  /** When a barrier is passed, all acknowledgements are in. */
  lemma OneBarrier(s: State)
    requires OneInv(s) && (s.boss == Stopped || (s.boss == Joining && s.n == 0))
    ensures AllAcks(s) == s.sent && s.sem == 0
  {
    SubsetSize(AllAcks(s), s.sent);
  }

  lemma OneSuspend(s: State, i: nat, skip: bool)
    requires OneInv(s) && s.boss == Suspending(i)
    ensures OneInv(CollectStep(ONE, s, skip))
  {
    hide AllOne;
    hide AllAcks;
    SuspendAll(s, i, skip);
    SuspendAcks(s, i, skip);
    if i < |s.threads| {
      SuspendChosen(s, i, skip);
    }
  }

  lemma SuspendChosen(s: State, i: nat, skip: bool)
    requires OneInv(s) && s.boss == Suspending(i) && i < |s.threads|
    ensures var to := CollectStep(ONE, s, skip);
            && to.sent == (if skip then s.sent else s.sent + {i}) && i !in s.sent
            && to.n == s.n + (if skip then 0 else 1)
            && Chosen(to, i + 1) && forall t :: t in to.sent || t in to.out ==> t < i + 1
  {
    hide AllAcks;
    assert ThreadOne(s, i, s.threads[i]);
  }

  lemma SuspendAcks(s: State, i: nat, skip: bool)
    requires OneInv(s) && s.boss == Suspending(i)
    ensures AllAcks(CollectStep(ONE, s, skip)) == AllAcks(s)
  {
    if i < |s.threads| {
      assert ThreadOne(s, i, s.threads[i]);
    }
  }

  lemma SuspendAll(s: State, i: nat, skip: bool)
    requires OneInv(s) && s.boss == Suspending(i)
    ensures AllOne(CollectStep(ONE, s, skip))
  {
    hide AllAcks;
    var to := CollectStep(ONE, s, skip);
    if i < |s.threads| {
      assert ThreadOne(s, i, s.threads[i]);
    }
    forall u {:trigger to.threads[u]} | 0 <= u < |to.threads|
      ensures ThreadOne(to, u, to.threads[u])
    {
      assert ThreadOne(s, u, s.threads[u]);
    }
  }

  lemma OneRestart(s: State, i: nat, skip: bool)
    requires OneInv(s) && s.boss == Restarting(i)
    ensures OneInv(CollectStep(ONE, s, skip))
  {
    hide AllOne;
    hide AllAcks;
    hide Before;
    RestartAll(s, i, skip);
    RestartAcks(s, i, skip);
    if i >= |s.threads| {
      RestartLast(s, i);
    } else {
      RestartBefore(s, i, skip);
    }
  }

  lemma RestartBefore(s: State, i: nat, skip: bool)
    requires s.boss == Restarting(i) && i < |s.threads| && Chosen(s, |s.threads|)
    ensures var to := CollectStep(ONE, s, skip);
            && Chosen(to, |to.threads|) && to.boss == Restarting(i + 1) && |to.threads| == |s.threads|
            && |Before(to, i + 1)| == |Before(s, i)| + to.n - s.n
  {
    var to := CollectStep(ONE, s, skip);
    assert Before(to, i + 1) == Before(s, i) + (if i in s.out then {} else {i});
  }

  lemma RestartLast(s: State, i: nat)
    requires OneInv(s) && s.boss == Restarting(i) && i >= |s.threads|
    ensures Before(s, i) == s.sent
  {
  }

  lemma RestartAcks(s: State, i: nat, skip: bool)
    requires s.boss == Restarting(i)
    ensures AllAcks(CollectStep(ONE, s, skip)) == AllAcks(s)
  {
  }

  lemma RestartAll(s: State, i: nat, skip: bool)
    requires OneInv(s) && s.boss == Restarting(i)
    ensures AllOne(CollectStep(ONE, s, skip))
  {
    var to := CollectStep(ONE, s, skip);
    forall u {:trigger to.threads[u]} | 0 <= u < |to.threads|
      ensures ThreadOne(to, u, to.threads[u])
    {
      assert ThreadOne(s, u, s.threads[u]);
    }
  }

  /** A step of the collecting thread that sends no signal. */
  lemma OneAdvance(s: State, skip: bool)
    requires OneInv(s) && !s.boss.Suspending? && !s.boss.Restarting?
    ensures OneInv(CollectStep(ONE, s, skip))
  {
    var to := CollectStep(ONE, s, skip);
    if s.boss == Stopped || (s.boss == Joining && s.n == 0) {
      OneBarrier(s);
    }
    forall u {:trigger to.threads[u]} | 0 <= u < |to.threads|
      ensures ThreadOne(to, u, to.threads[u])
    {
      assert ThreadOne(s, u, s.threads[u]);
      assert s.boss == Stopped || (s.boss == Joining && s.n == 0) ==> (u in s.sent <==> u in AllAcks(s));
    }
    if s.boss == Idle {
      assert AllAcks(to) == {};
    } else if s.boss == Stopped {
      assert Before(to, 0) == {} && AllAcks(to) == {};
    } else {
      assert to.boss != Idle ==> AllAcks(to) == AllAcks(s);
    }
  }

  lemma OneCollect(s: State, skip: bool)
    requires OneInv(s)
    ensures OneInv(CollectStep(ONE, s, skip))
  {
    match s.boss
    case Suspending(i) => OneSuspend(s, i, skip);
    case Restarting(i) => OneRestart(s, i, skip);
    case _ => OneAdvance(s, skip);
  }

  lemma {:induction false} OneRun(n: nat, moves: seq<Move>)
    ensures OneInv(Run(ONE, Init(n), moves))
  {
    if moves == [] {
      OneInit(n);
    } else {
      var s := Run(ONE, Init(n), moves[..|moves| - 1]);
      OneRun(n, moves[..|moves| - 1]);
      match moves[|moves| - 1]
      case Collect(skip) => OneCollect(s, skip);
      case Handle(t) =>
        if t < |s.threads| {
          OneHandle(s, t);
        }
      case Nested(t) =>
        if t < |s.threads| && s.threads[t].pc == Waiting && s.threads[t].pending {
          OneNested(s, t);
        }
    }
  }

  /** With one signal, and if nothing else wakes a waiting thread, GC_stop_world is safe. */
  lemma OneSignalSafe(n: nat, moves: seq<Move>)
    ensures Safe(Run(ONE, Init(n), moves))
  {
    var s := Run(ONE, Init(n), moves);
    OneRun(n, moves);
    if s.boss == Stopped {
      OneBarrier(s);
      forall t | t in s.sent && t < |s.threads|
        ensures IsStopped(s.threads[t], s.count)
      {
        assert t in AllAcks(s);
      }
    }
  }

  /** With one signal, a handler that interrupts a waiting one returns at once in every run, so
      there are no others to consider. */
  lemma NestedReturn(n: nat, moves: seq<Move>, t: nat)
    requires var s := Run(ONE, Init(n), moves);
             t < |s.threads| && s.threads[t].pc == Waiting && s.threads[t].pending
    ensures ReturnsAtOnce(Run(ONE, Init(n), moves), t)
  {
    OneRun(n, moves);
    OneNested(Run(ONE, Init(n), moves), t);
  }

  // ----- One signal, and early wake-ups -----

  function In(pc: Pc, count: nat, pending: bool): Thread {
    Thread(pc, count, count, count, pending)
  }

  function Two(count: nat, sem: nat, a: Thread, b: Thread, boss: Boss, n: nat, sent: set<nat>): State {
    State(count, sem, [a, b], boss, n, sent, {})
  }

  function After(moves: seq<Move>): State {
    Run(Mode(true, true), Init(2), moves)
  }

  lemma More(moves: seq<Move>, m: Move) returns (to: seq<Move>)
    ensures After(to) == Step(Mode(true, true), After(moves), m)
  {
    to := moves + [m];
    assert to[..|to| - 1] == moves;
  }

  /** Both threads are sent the signal. */
  lemma Leg1(moves: seq<Move>) returns (to: seq<Move>)
    requires After(moves) == Two(1, 0, In(Running, 0, false), In(Running, 0, false), Idle, 0, {})
    ensures After(to) == Two(2, 0, In(Running, 0, true), In(Running, 0, true), Stopping, 2, {0, 1})
  {
    to := moves;
    to := More(to, Collect(false));
    to := More(to, Collect(false));
    to := More(to, Collect(false));
    to := More(to, Collect(false));
  }

  /** The first thread stops. */
  lemma Leg2(moves: seq<Move>) returns (to: seq<Move>)
    requires After(moves) == Two(2, 0, In(Running, 0, true), In(Running, 0, true), Stopping, 2, {0, 1})
    ensures After(to) == Two(2, 1, In(Waiting, 2, false), In(Running, 0, true), Stopping, 2, {0, 1})
  {
    to := moves;
    to := More(to, Handle(0));
    to := More(to, Handle(0));
    to := More(to, Handle(0));
    to := More(to, Handle(0));
  }

  /** The second thread stops. */
  lemma Leg3(moves: seq<Move>) returns (to: seq<Move>)
    requires After(moves) == Two(2, 1, In(Waiting, 2, false), In(Running, 0, true), Stopping, 2, {0, 1})
    ensures After(to) == Two(2, 2, In(Waiting, 2, false), In(Waiting, 2, false), Stopping, 2, {0, 1})
  {
    to := moves;
    to := More(to, Handle(1));
    to := More(to, Handle(1));
    to := More(to, Handle(1));
    to := More(to, Handle(1));
  }

  /** All acknowledgements are in, and the restart begins. */
  lemma Leg4(moves: seq<Move>) returns (to: seq<Move>)
    requires After(moves) == Two(2, 2, In(Waiting, 2, false), In(Waiting, 2, false), Stopping, 2, {0, 1})
    ensures After(to) == Two(3, 0, In(Waiting, 2, false), In(Waiting, 2, false), Restarting(0), 0, {0, 1})
  {
    to := moves;
    to := More(to, Collect(false));
    to := More(to, Collect(false));
    to := More(to, Collect(false));
    to := More(to, Collect(false));
  }

  /** A user signal wakes the first thread before its restart signal is sent. */
  lemma Leg5(moves: seq<Move>) returns (to: seq<Move>)
    requires After(moves) == Two(3, 0, In(Waiting, 2, false), In(Waiting, 2, false), Restarting(0), 0, {0, 1})
    ensures After(to) == Two(3, 1, In(Running, 2, false), In(Waiting, 2, false), Restarting(0), 0, {0, 1})
  {
    to := moves;
    to := More(to, Handle(0));
    to := More(to, Handle(0));
    to := More(to, Handle(0));
  }

  /** The restart signals are sent; that of the first thread stays pending. */
  lemma Leg6(moves: seq<Move>) returns (to: seq<Move>)
    requires After(moves) == Two(3, 1, In(Running, 2, false), In(Waiting, 2, false), Restarting(0), 0, {0, 1})
    ensures After(to) == Two(3, 1, In(Running, 2, true), In(Waiting, 2, true), Joining, 2, {0, 1})
  {
    to := moves;
    to := More(to, Collect(false));
    to := More(to, Collect(false));
    to := More(to, Collect(false));
  }

  /** The second thread leaves. */
  lemma Leg7(moves: seq<Move>) returns (to: seq<Move>)
    requires After(moves) == Two(3, 1, In(Running, 2, true), In(Waiting, 2, true), Joining, 2, {0, 1})
    ensures After(to) == Two(3, 2, In(Running, 2, true), In(Running, 2, false), Joining, 2, {0, 1})
  {
    to := moves;
    to := More(to, Nested(1));
    to := More(to, Handle(1));
    to := More(to, Handle(1));
  }

  /** The restart is complete. */
  lemma Leg8(moves: seq<Move>) returns (to: seq<Move>)
    requires After(moves) == Two(3, 2, In(Running, 2, true), In(Running, 2, false), Joining, 2, {0, 1})
    ensures After(to) == Two(3, 0, In(Running, 2, true), In(Running, 2, false), Idle, 0, {0, 1})
  {
    to := moves;
    to := More(to, Collect(false));
    to := More(to, Collect(false));
    to := More(to, Collect(false));
  }

  /** The next stop begins, and the first thread takes its old signal for a new one. */
  lemma Leg9(moves: seq<Move>) returns (to: seq<Move>)
    requires After(moves) == Two(3, 0, In(Running, 2, true), In(Running, 2, false), Idle, 0, {0, 1})
    ensures After(to) == Two(4, 1, In(Waiting, 4, false), In(Running, 2, false), Suspending(0), 0, {})
  {
    to := moves;
    to := More(to, Collect(false));
    to := More(to, Handle(0));
    to := More(to, Handle(0));
    to := More(to, Handle(0));
    to := More(to, Handle(0));
  }

  /** The first thread is passed over, the second is sent a signal. */
  lemma Leg10(moves: seq<Move>) returns (to: seq<Move>)
    requires After(moves) == Two(4, 1, In(Waiting, 4, false), In(Running, 2, false), Suspending(0), 0, {})
    ensures After(to) == Two(4, 1, In(Waiting, 4, false), In(Running, 2, true), Stopping, 1, {1})
  {
    to := moves;
    to := More(to, Collect(false));
    to := More(to, Collect(false));
    to := More(to, Collect(false));
  }

  /** The acknowledgement of the first thread is taken for that of the second. */
  lemma Leg11(moves: seq<Move>) returns (to: seq<Move>)
    requires After(moves) == Two(4, 1, In(Waiting, 4, false), In(Running, 2, true), Stopping, 1, {1})
    ensures After(to) == Two(4, 0, In(Waiting, 4, false), In(Running, 2, true), Stopped, 0, {1})
  {
    to := moves;
    to := More(to, Collect(false));
    to := More(to, Collect(false));
  }

  /** With one signal for both purposes a restart signal can arrive late, and then GC_stop_world
      can return although a thread that was sent a signal still runs. */
  lemma EarlyUnsafe()
    ensures exists moves: seq<Move> :: !Safe(Run(Mode(true, true), Init(2), moves))
  {
    var m: seq<Move> := [];
    assert Init(2) == Two(1, 0, In(Running, 0, false), In(Running, 0, false), Idle, 0, {});
    m := Leg1(m);
    m := Leg2(m);
    m := Leg3(m);
    m := Leg4(m);
    m := Leg5(m);
    m := Leg6(m);
    m := Leg7(m);
    m := Leg8(m);
    m := Leg9(m);
    m := Leg10(m);
    m := Leg11(m);
    assert !IsStopped(After(m).threads[1], 4);
    assert !Safe(After(m));
  }

  /** The handshake is safe in all runs exactly if the two signals differ, or no signal of the
      client can wake a waiting thread. */
  lemma SafeExactlyIf(mode: Mode)
    ensures (forall n: nat, moves: seq<Move> :: Safe(Run(mode, Init(n), moves))) <==> !(mode.same && mode.early)
  {
    if mode.same && mode.early {
      EarlyUnsafe();
    } else {
      forall n: nat, moves: seq<Move>
        ensures Safe(Run(mode, Init(n), moves))
      {
        if mode.same {
          OneSignalSafe(n, moves);
        } else {
          DistinctSafe(mode, n, moves);
        }
      }
    }
  }

  // ----- The handshake can always be completed -----

  /** What holds in all runs of a mode in which the handshake is safe. */
  ghost predicate Good(mode: Mode, s: State) {
    if mode.same then !mode.early && OneInv(s) else Inv(s)
  }

  lemma GoodStep(mode: Mode, s: State, m: Move)
    requires Good(mode, s)
    ensures Good(mode, Step(mode, s, m))
  {
    hide OneInv;
    hide Inv;
    if !mode.same {
      StepInv(mode, s, m);
    } else {
      assert mode == ONE;
      OneStep(s, m);
    }
  }

  lemma OneStep(s: State, m: Move)
    requires OneInv(s)
    ensures OneInv(Step(ONE, s, m))
  {
    hide OneInv;
    match m
    case Collect(skip) => OneCollect(s, skip);
    case Handle(t) =>
      if t < |s.threads| {
        OneHandle(s, t);
      }
    case Nested(t) =>
      if t < |s.threads| && s.threads[t].pc == Waiting && s.threads[t].pending {
        OneNested(s, t);
      }
  }

  lemma {:induction false} RunGood(mode: Mode, n: nat, moves: seq<Move>)
    requires !(mode.same && mode.early)
    ensures Good(mode, Run(mode, Init(n), moves))
  {
    if moves == [] {
      InitInv(n);
      OneInit(n);
    } else {
      hide Good;
      RunGood(mode, n, moves[..|moves| - 1]);
      GoodStep(mode, Run(mode, Init(n), moves[..|moves| - 1]), moves[|moves| - 1]);
    }
  }

  /** A run that goes on. */
  lemma {:induction false} RunMore(mode: Mode, s: State, a: seq<Move>, b: seq<Move>)
    ensures Run(mode, s, a + b) == Run(mode, Run(mode, s, a), b)
  {
    hide Step;
    if b == [] {
      assert a + b == a;
    } else {
      var n := |b| - 1;
      RunMore(mode, s, a, b[..n]);
      assert (a + b)[..|a| + n] == a + b[..n];
    }
  }

  lemma RunFirst(mode: Mode, s: State, m: Move, rest: seq<Move>)
    ensures Run(mode, s, [m] + rest) == Run(mode, Step(mode, s, m), rest)
  {
    RunMore(mode, s, [m], rest);
    assert [m][..0] == [];
    assert Run(mode, s, [m]) == Step(mode, Run(mode, s, [m][..0]), m);
  }

  predicate IsGoing(boss: Boss) {
    boss == Idle || boss.Restarting? || boss == Joining
  }

  /** How far a thread is from its acknowledgement, or from being out of its handler. */
  function Rank(th: Thread, count: nat, going: bool): nat {
    if going then
      match th.pc
      case Running => 0
      case Leaving => 1
      case Woken => 2
      case Waiting => 3
      case Posted => 4
      case Stored => 5
      case Loaded => 6
    else if IsStopped(th, count) then 0
    else
      match th.pc
      case Stored => 1
      case Loaded => 2
      case Running => 3
      case Leaving => 4
      case Woken => 5
      case Waiting => 6
      case Posted => 7
  }

  function Ranks(threads: seq<Thread>, count: nat, going: bool): nat {
    if threads == [] then 0 else Rank(threads[0], count, going) + Ranks(threads[1..], count, going)
  }

  lemma {:induction false} RanksUpdate(threads: seq<Thread>, t: nat, th: Thread, count: nat, going: bool)
    requires t < |threads|
    ensures Ranks(threads[t := th], count, going) ==
            Ranks(threads, count, going) - Rank(threads[t], count, going) + Rank(th, count, going)
  {
    hide Rank;
    if t == 0 {
      assert threads[t := th][1..] == threads[1..];
    } else {
      assert threads[t := th][1..] == threads[1..][t - 1 := th];
      RanksUpdate(threads[1..], t - 1, th, count, going);
    }
  }

  function Phase(boss: Boss): nat {
    match boss
    case Restarting(i) => 5
    case Joining => 4
    case Idle => 3
    case Suspending(i) => 2
    case Stopping => 1
    case Stopped => 0
  }

  function Left(s: State): nat {
    if (s.boss.Restarting? || s.boss.Suspending?) && s.boss.i <= |s.threads| then |s.threads| - s.boss.i else 0
  }

  /** Nearer to the next complete stop. */
  predicate Nearer(t: State, s: State) {
    || Phase(t.boss) < Phase(s.boss)
    || (&& Phase(t.boss) == Phase(s.boss)
        && (|| Left(t) < Left(s)
            || (Left(t) == Left(s) && t.n < s.n)
            || (&& Left(t) == Left(s) && t.n == s.n
                && Ranks(t.threads, t.count, IsGoing(t.boss)) < Ranks(s.threads, s.count, IsGoing(s.boss)))))
  }

  /** A thread that has not acknowledged can go on. */
  lemma ThreadNearer(mode: Mode, s: State, t: nat, m: Move)
    requires t < |s.threads| && (m == Handle(t) || m == Nested(t))
    requires var to := Step(mode, s, m);
             && to == With(s, t, to.threads[t]).(sem := to.sem)
             && Rank(to.threads[t], s.count, IsGoing(s.boss)) < Rank(s.threads[t], s.count, IsGoing(s.boss))
    ensures Nearer(Step(mode, s, m), s)
  {
    hide Rank;
    hide Step;
    RanksUpdate(s.threads, t, Step(mode, s, m).threads[t], s.count, IsGoing(s.boss));
  }

  /** While acknowledgements are missing, some thread has not given its own. */
  lemma DistinctMissing(s: State) returns (t: nat)
    requires Inv(s) && s.boss == Stopping && s.n > 0 && s.sem == 0
    ensures t in s.sent && t < |s.threads| && !IsStopped(s.threads[t], s.count) && s.count % 2 == 0
    ensures ThreadOk(s.threads[t], s.count, true)
  {
    t := Missing(Acked(s), s.sent);
    assert ThreadOk(s.threads[t], s.count, t in Current(s));
  }

  lemma OneMissing(s: State) returns (t: nat)
    requires OneInv(s) && (s.boss == Stopping || s.boss == Joining) && s.n > 0 && s.sem == 0
    ensures t in s.sent && t < |s.threads| && !HasAcked(s, s.threads[t]) && ThreadOne(s, t, s.threads[t])
    ensures if s.boss == Stopping then s.count % 2 == 0 else s.count % 2 == 1
  {
    t := Missing(AllAcks(s), s.sent);
  }

  lemma DistinctMoves(mode: Mode, s: State, t: nat)
    requires !mode.same && s.boss == Stopping && t < |s.threads| && s.count % 2 == 0
    requires !IsStopped(s.threads[t], s.count) && ThreadOk(s.threads[t], s.count, true)
    ensures Nearer(Step(mode, s, Handle(t)), s)
  {
    hide Nearer;
    ThreadNearer(mode, s, t, Handle(t));
  }

  lemma OneMoves(s: State, t: nat) returns (m: Move)
    requires (s.boss == Stopping && s.count % 2 == 0) || (s.boss == Joining && s.count % 2 == 1)
    requires t in s.sent && t < |s.threads| && !HasAcked(s, s.threads[t]) && ThreadOne(s, t, s.threads[t])
    ensures Nearer(Step(ONE, s, m), s) && (m.Handle? || m.Nested?)
  {
    hide Nearer;
    m := if s.threads[t].pc == Waiting then Nested(t) else Handle(t);
    ThreadNearer(ONE, s, t, m);
  }

  /** From every state there is a move that brings the next complete stop nearer. */
  lemma NextMove(mode: Mode, s: State) returns (m: Move)
    requires Good(mode, s) && s.boss != Stopped
    ensures Nearer(Step(mode, s, m), s)
  {
    if (s.boss == Stopping || s.boss == Joining) && s.n > 0 && s.sem == 0 {
      hide Nearer;
      if mode.same {
        var t := OneMissing(s);
        m := OneMoves(s, t);
      } else {
        var t := DistinctMissing(s);
        DistinctMoves(mode, s, t);
        m := Handle(t);
      }
    } else {
      m := Collect(false);
    }
  }

  /** From every state that a run leads to, a stop can be completed. */
  lemma {:induction false} CanStop(mode: Mode, s: State) returns (more: seq<Move>)
    requires Good(mode, s)
    ensures Run(mode, s, more).boss == Stopped && Good(mode, Run(mode, s, more))
    decreases Phase(s.boss), Left(s), s.n, Ranks(s.threads, s.count, IsGoing(s.boss))
  {
    hide Good;
    hide Step;
    if s.boss == Stopped {
      more := [];
    } else {
      var m := NextMove(mode, s);
      GoodStep(mode, s, m);
      var rest := CanStop(mode, Step(mode, s, m));
      RunFirst(mode, s, m, rest);
      more := [m] + rest;
    }
  }

  /** No thread is in its handler or about to enter it. */
  ghost predicate AllRun(s: State) {
    s.boss == Idle && forall t {:trigger s.threads[t]} :: 0 <= t < |s.threads| ==>
      s.threads[t].pc == Running && !s.threads[t].pending
  }

  /** Nearer to the end of the restart: the collecting thread goes to `Idle`, then the others on. */
  predicate NearerIdle(t: State, s: State) {
    || AfterStop(t.boss) < AfterStop(s.boss)
    || (&& AfterStop(t.boss) == AfterStop(s.boss)
        && (|| Left(t) < Left(s)
            || (Left(t) == Left(s) && t.n < s.n)
            || (&& Left(t) == Left(s) && t.n == s.n
                && Ranks(t.threads, t.count, IsGoing(t.boss)) < Ranks(s.threads, s.count, IsGoing(s.boss)))))
  }

  function AfterStop(boss: Boss): nat {
    match boss
    case Stopped => 3
    case Restarting(i) => 2
    case Joining => 1
    case _ => 0
  }

  lemma NearerBoth(t: State, s: State)
    requires Nearer(t, s) && t.boss == s.boss
    ensures NearerIdle(t, s)
  {
  }

  /** A thread that is still in its handler for an old stop can leave it. */
  lemma LeavesHandler(mode: Mode, s: State, t: nat)
    requires !mode.same && Inv(s) && s.boss == Idle && t < |s.threads| && s.threads[t].pc != Running
    ensures Nearer(Step(mode, s, Handle(t)), s) && Step(mode, s, Handle(t)).boss == Idle
  {
    assert ThreadOk(s.threads[t], s.count, t in Current(s));
    hide Nearer;
    hide Inv;
    ThreadNearer(mode, s, t, Handle(t));
  }

  lemma QuietAtIdle(mode: Mode, s: State, t: nat)
    requires Good(mode, s) && s.boss == Idle && t < |s.threads|
    ensures !s.threads[t].pending && (mode.same ==> s.threads[t].pc == Running)
  {
    if mode.same {
      assert ThreadOne(s, t, s.threads[t]);
    } else {
      assert ThreadOk(s.threads[t], s.count, t in Current(s));
    }
  }

  lemma NextIdle(mode: Mode, s: State) returns (m: Move)
    requires Good(mode, s) && AfterStop(s.boss) > 0
    ensures var to := Step(mode, s, m); NearerIdle(to, s) && (AfterStop(to.boss) > 0 || to.boss == Idle)
  {
    if s.boss == Joining && s.n > 0 && s.sem == 0 {
      assert mode.same;
      var t := OneMissing(s);
      m := OneMoves(s, t);
      OneStays(s, t, m);
      NearerBoth(Step(mode, s, m), s);
    } else {
      m := Collect(false);
    }
  }

  lemma OneStays(s: State, t: nat, m: Move)
    requires m.Handle? || m.Nested?
    ensures Step(ONE, s, m).boss == s.boss
  {
  }

  /** Once stopped, the world can be restarted: all threads leave their handlers. */
  lemma {:induction false} CanGoOn(mode: Mode, s: State) returns (more: seq<Move>)
    requires Good(mode, s) && (AfterStop(s.boss) > 0 || s.boss == Idle)
    ensures AllRun(Run(mode, s, more)) && Good(mode, Run(mode, s, more))
    decreases AfterStop(s.boss), Left(s), s.n, Ranks(s.threads, s.count, IsGoing(s.boss))
  {
    hide Step;
    if AllRun(s) {
      more := [];
    } else {
      var m: Move;
      if s.boss == Idle {
        var t :| 0 <= t < |s.threads| && (s.threads[t].pc != Running || s.threads[t].pending);
        QuietAtIdle(mode, s, t);
        LeavesHandler(mode, s, t);
        NearerBoth(Step(mode, s, Handle(t)), s);
        m := Handle(t);
      } else {
        m := NextIdle(mode, s);
      }
      hide Good;
      GoodStep(mode, s, m);
      var rest := CanGoOn(mode, Step(mode, s, m));
      RunFirst(mode, s, m, rest);
      more := [m] + rest;
    }
  }

  /** In every run of a safe mode, whatever has happened so far: the world can be stopped, and then
      restarted so that every thread runs outside its handler. */
  lemma CanComplete(mode: Mode, n: nat, moves: seq<Move>)
    requires !(mode.same && mode.early)
    ensures exists stop: seq<Move>, go: seq<Move> ::
              && Run(mode, Init(n), moves + stop).boss == Stopped && Safe(Run(mode, Init(n), moves + stop))
              && AllRun(Run(mode, Init(n), (moves + stop) + go))
  {
    hide Good;
    hide AllRun;
    hide Safe;
    RunGood(mode, n, moves);
    var stop := CanStop(mode, Run(mode, Init(n), moves));
    RunMore(mode, Init(n), moves, stop);
    var go := CanGoOn(mode, Run(mode, Init(n), moves + stop));
    RunMore(mode, Init(n), moves + stop, go);
    if mode.same {
      OneSignalSafe(n, moves + stop);
    } else {
      DistinctSafe(mode, n, moves + stop);
    }
  }
}
