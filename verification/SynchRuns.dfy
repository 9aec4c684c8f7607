/** What the calls of an interleaving add up to: every trace of events is a run of the scheduler, and
    the units of each semaphore are counted by the calls that threads and interrupt handlers make. */
module SynchRuns {
  import opened Basics
  import opened Scheduler
  import opened SchedulerRuns
  import opened Synch

  // ------------------------------------------------------------------
  // Which events are a sema_up, and which take a unit

  /** The event is a sema_up on x: called by a thread, an interrupt handler or idle(), or the one in
      lock_release or cond_signal. */
  predicate IsUp(s: State, e: Event, x: Sid)
    requires s.k.cur in s.pc
  {
    var pc := s.pc[s.k.cur];
    match x
    case User(n) => e == CallUp(n) || e == Interrupt(n) || (n == 0 && e.Go? && pc == IdleAnnounce)
    case LockSema(l) => e.Go? && pc.Releasing? && pc.l == l
    case Waiter(w) => e.Go? && pc.Signalling? && pc.w == w
  }

  /** The event is a turn of sema_down on x, or a sema_try_down. */
  predicate IsDown(s: State, e: Event, x: Sid)
    requires s.k.cur in s.pc
  {
    var pc := s.pc[s.k.cur];
    match x
    case User(n) => e == CallTryDown(n) || (e.Go? && pc == InDown(n))
    case LockSema(l) => e == CallTryAcquire(l) || (e.Go? && pc == Acquiring(l))
    case Waiter(w) => e.Go? && pc.Sleeping? && pc.w == w
  }

  predicate TakesUnit(s: State, e: Event, x: Sid)
    requires s.k.cur in s.pc
  {
    IsDown(s, e, x) && x in s.k.semas && s.k.semas[x].value > 0
  }

  lemma UpIsAction(s: State, e: Event, x: Sid)
    requires Allowed(s, e)
    ensures ActionOf(s, e) == Some(AUp(x)) <==> IsUp(s, e, x)
  {
  }

  lemma DownIsAction(s: State, e: Event, x: Sid)
    requires Allowed(s, e)
    ensures ActionOf(s, e) == Some(ADown(x)) || ActionOf(s, e) == Some(ATryDown(x)) <==> IsDown(s, e, x)
  {
  }

  // ------------------------------------------------------------------
  // Single events

  /** Whoever calls it, sema_up leaves one unit more, and the longest waiter READY. */
  lemma UpEventDoes(s: State, e: Event, x: Sid)
    requires SyncInv(s) && Allowed(s, e) && IsUp(s, e, x)
    ensures x in s.k.semas && KernelAfter(s, e).Some?
    ensures var k, k' := s.k, Step(s, e).k; var q := k.semas[x].waiters;
            && k'.cur == k.cur && OthersSame(k, k', x) && k'.semas[x].value == k.semas[x].value + 1
            && if q == [] then GoesOn(k, k') && k'.semas[x].waiters == []
               else
                 && k'.semas[x].waiters == q[1..] && k'.ready == k.ready + [q[0]]
                 && k'.status == k.status[q[0] := Ready] && q[0] in k.status && k.status[q[0]] == Blocked
  {
    UpIsAction(s, e, x);
    ActionAllowed(s, e);
    UpDoes(s.k, x);
  }

  /** sema_try_down and lock_try_acquire take a unit exactly if there is one, and never wait. */
  lemma TryEventDoes(s: State, e: Event, x: Sid)
    requires SyncInv(s) && Allowed(s, e)
             && ((e.CallTryDown? && x == User(e.n)) || (e.CallTryAcquire? && x == LockSema(e.l)))
    ensures x in s.k.semas && KernelAfter(s, e).Some?
    ensures var k, k' := s.k, Step(s, e).k;
            && GoesOn(k, k') && OthersSame(k, k', x) && k'.semas[x].waiters == k.semas[x].waiters
            && k'.semas[x].value == if k.semas[x].value > 0 then k.semas[x].value - 1 else 0
  {
    ActionAllowed(s, e);
    TryDownDoes(s.k, x);
  }

  /** A turn of sema_down, of lock_acquire's or of cond_wait's takes a unit, or joins the wait list. */
  lemma DownEventDoes(s: State, e: Event, x: Sid)
    requires SyncInv(s) && Allowed(s, e) && e.Go? && IsDown(s, e, x)
    ensures x in s.k.semas && KernelAfter(s, e).Some?
    ensures var k, k' := s.k, Step(s, e).k;
            && OthersSame(k, k', x)
            && if k.semas[x].value > 0 then
                 GoesOn(k, k') && k'.semas[x].value == k.semas[x].value - 1 && k'.semas[x].waiters == k.semas[x].waiters
               else
                 && k'.semas[x].value == 0 && k'.semas[x].waiters == k.semas[x].waiters + [k.cur]
                 && k.cur in k'.status && k'.status[k.cur] == Blocked && HandsOver(k, k', k.ready)
  {
    DownIsAction(s, e, x);
    ActionAllowed(s, e);
    DownDoes(s.k, x);
  }

  /** An event with an action changes the kernel as the action does. */
  lemma EventApplies(s: State, e: Event, a: Action)
    requires SyncInv(s) && Allowed(s, e) && ActionOf(s, e) == Some(a)
    ensures Enabled(s.k, a) && KernelAfter(s, e).Some? && Apply(s.k, a) == Some(Step(s, e).k)
  {
    ActionAllowed(s, e);
    KernelHolds(s, e);
  }

  /** thread_yield gives the processor to the next thread and puts the caller last. */
  lemma YieldEventDoes(s: State)
    requires SyncInv(s) && Allowed(s, CallYield)
    ensures KernelAfter(s, CallYield).Some?
    ensures var k, k' := s.k, Step(s, CallYield).k;
            HandsOver(k, k', Rotated(k)) && (k'.cur != k.cur ==> k.cur in k'.status && k'.status[k.cur] == Ready)
  {
    EventApplies(s, CallYield, AYield);
    YieldDoes(s.k);
  }

  /** The timer does so at every fourth tick. */
  lemma TickEventDoes(s: State)
    requires SyncInv(s) && Allowed(s, Tick)
    ensures KernelAfter(s, Tick).Some?
    ensures var k, k' := s.k, Step(s, Tick).k;
            if k.ticks < 3 then k'.cur == k.cur && k'.ready == k.ready && k'.ticks == k.ticks + 1
            else HandsOver(k, k', Rotated(k))
  {
    EventApplies(s, Tick, ATick);
    TickDoes(s.k);
  }

  lemma ExitEventDoes(s: State)
    requires SyncInv(s) && Allowed(s, CallExit)
    ensures KernelAfter(s, CallExit).Some?
    ensures var k, k' := s.k, Step(s, CallExit).k;
            && HandsOver(k, k', k.ready) && k'.exited == k.exited + {k.cur}
            && (k.cur != k.initial ==> k'.freed == k.freed + [k.cur])
  {
    EventApplies(s, CallExit, AExit);
    ExitDoes(s.k);
  }

  /** idle() first makes itself known, ... */
  lemma IdleFirstDoes(s: State)
    requires SyncInv(s) && Allowed(s, Go) && s.pc[s.k.cur] == IdleFirst
    ensures KernelAfter(s, Go).Some? && GoesOn(s.k, Step(s, Go).k) && Step(s, Go).k.idleUp
  {
    EventApplies(s, Go, AIdleInit);
    IdleDoes(s.k);
  }

  /** ... and later makes way for any thread that is ready. */
  lemma IdleLoopDoes(s: State)
    requires SyncInv(s) && Allowed(s, Go) && s.pc[s.k.cur] == IdleLoop
    ensures KernelAfter(s, Go).Some? && HandsOver(s.k, Step(s, Go).k, s.k.ready)
  {
    EventApplies(s, Go, AIdleBlock);
    IdleDoes(s.k);
  }

  lemma NewSemaDoes(s: State, n: nat, v: nat)
    requires SyncInv(s) && Allowed(s, NewSema(n, v))
    ensures KernelAfter(s, NewSema(n, v)).Some?
    ensures var s' := Step(s, NewSema(n, v));
            && GoesOn(s.k, s'.k) && s'.pc == s.pc && User(n) in s'.k.semas
            && s'.k.semas[User(n)].value == v && s'.k.semas[User(n)].waiters == []
            && forall x :: x in s.k.semas ==> x in s'.k.semas && s'.k.semas[x] == s.k.semas[x]
  {
    EventApplies(s, NewSema(n, v), AInit(User(n), v));
    InitDoes(s.k, User(n), v);
  }

  /** A new lock is free: one unit, no holder. */
  lemma NewLockDoes(s: State, l: nat)
    requires SyncInv(s) && Allowed(s, NewLock(l))
    ensures KernelAfter(s, NewLock(l)).Some?
    ensures var s' := Step(s, NewLock(l));
            && GoesOn(s.k, s'.k) && s'.pc == s.pc && LockSema(l) in s'.k.semas
            && s'.k.semas[LockSema(l)].value == 1 && s'.k.semas[LockSema(l)].waiters == []
            && s'.holder == s.holder[l := None]
            && forall x :: x in s.k.semas ==> x in s'.k.semas && s'.k.semas[x] == s.k.semas[x]
  {
    EventApplies(s, NewLock(l), AInit(LockSema(l), 1));
    InitDoes(s.k, LockSema(l), 1);
  }

  lemma NewCondDoes(s: State, c: nat, l: nat)
    requires SyncInv(s) && Allowed(s, NewCond(c, l))
    ensures KernelAfter(s, NewCond(c, l)).Some?
    ensures var s' := Step(s, NewCond(c, l));
            s'.k == s.k && s'.pc == s.pc && c in s'.conds && s'.conds[c].lock == l && s'.conds[c].queue == []
  {
  }

  // ------------------------------------------------------------------
  // Units

  ghost function UpEvents(s: State, run: seq<Event>, x: Sid): nat
    requires IsTrace(s, run)
    decreases |run|
  {
    if run == [] then 0 else (if IsUp(s, run[0], x) then 1 else 0) + UpEvents(Step(s, run[0]), run[1..], x)
  }

  ghost function TakeEvents(s: State, run: seq<Event>, x: Sid): nat
    requires IsTrace(s, run)
    decreases |run|
  {
    if run == [] then 0 else (if TakesUnit(s, run[0], x) then 1 else 0) + TakeEvents(Step(s, run[0]), run[1..], x)
  }

  lemma EventUnits(s: State, e: Event, x: Sid)
    requires SyncInv(s) && Allowed(s, e) && x in s.k.semas
    ensures KernelAfter(s, e).Some? && x in Step(s, e).k.semas
    ensures var m, m' := s.k.semas[x], Step(s, e).k.semas[x];
            && m'.value == m.value + (if IsUp(s, e, x) then 1 else 0) - (if TakesUnit(s, e, x) then 1 else 0)
            && m'.ups == m.ups + (if IsUp(s, e, x) then 1 else 0)
            && m'.downs == m.downs + (if TakesUnit(s, e, x) then 1 else 0)
  {
    UpIsAction(s, e, x);
    DownIsAction(s, e, x);
    if ActionOf(s, e).Some? {
      var a := ActionOf(s, e).value;
      EventApplies(s, e, a);
      UnitsBy(s.k, a, x, IsUp(s, e, x), IsDown(s, e, x));
    }
  }

  lemma UnitsBy(k: Kernel, a: Action, x: Sid, up: bool, down: bool)
    requires Inv(k) && Enabled(k, a) && x in k.semas && Apply(k, a).Some?
    requires up == (a == AUp(x)) && down == (a == ADown(x) || a == ATryDown(x))
    ensures x in Apply(k, a).value.semas
    ensures var m, m', take := k.semas[x], Apply(k, a).value.semas[x], down && k.semas[x].value > 0;
            && m'.value == m.value + (if up then 1 else 0) - (if take then 1 else 0)
            && m'.ups == m.ups + (if up then 1 else 0) && m'.downs == m.downs + (if take then 1 else 0)
  {
    UnitStep(k, a, x);
    HistoryStep(k, a, x);
  }

  /** Over any interleaving the value is what it was, plus the sema_ups, minus the units taken; and the
      history fields count exactly these. */
  lemma {:induction false} TraceUnits(s: State, run: seq<Event>, x: Sid)
    requires SyncInv(s) && IsTrace(s, run) && x in s.k.semas
    ensures x in End(s, run).k.semas
    ensures var m, m' := s.k.semas[x], End(s, run).k.semas[x];
            && m'.value == m.value + UpEvents(s, run, x) - TakeEvents(s, run, x)
            && m'.ups == m.ups + UpEvents(s, run, x) && m'.downs == m.downs + TakeEvents(s, run, x)
    decreases |run|
  {
    if run != [] {
      var s1 := Step(s, run[0]);
      StepKeeps(s, run[0]);
      EventUnits(s, run[0], x);
      TraceUnits(s1, run[1..], x);
      assert End(s, run) == End(s1, run[1..]);
    }
  }

  // ------------------------------------------------------------------
  // sema_down, from call to return

  /** The threads inside sema_down on the caller's semaphore n. */
  ghost function Waiting(s: State, n: nat): set<Tid> { set t | t in s.pc && s.pc[t] == InDown(n) }

  ghost function CallsOf(run: seq<Event>, e: Event): nat {
    if run == [] then 0 else (if run[0] == e then 1 else 0) + CallsOf(run[1..], e)
  }

  /** How many sema_try_down calls succeed. */
  ghost function Tries(s: State, run: seq<Event>, n: nat): nat
    requires IsTrace(s, run)
    decreases |run|
  {
    if run == [] then 0
    else (if run[0] == CallTryDown(n) && Available(s.k, User(n)) then 1 else 0) + Tries(Step(s, run[0]), run[1..], n)
  }

  /** The event is the last turn of a sema_down on n. */
  predicate LastTurn(s: State, e: Event, n: nat)
    requires s.k.cur in s.pc
  {
    e.Go? && s.pc[s.k.cur] == InDown(n) && Available(s.k, User(n))
  }

  lemma WaitingStep(s: State, e: Event, n: nat)
    requires Allowed(s, e)
    ensures Waiting(Local(s, e), n) == if e == CallDown(n) then Waiting(s, n) + {s.k.cur}
                                       else if LastTurn(s, e, n) then Waiting(s, n) - {s.k.cur} else Waiting(s, n)
    ensures e == CallDown(n) ==> s.k.cur !in Waiting(s, n)
    ensures LastTurn(s, e, n) ==> s.k.cur in Waiting(s, n)
  {
    PcAfter(s, e);
    WhoIsIn(s, e, n);
  }

  lemma WhoIsIn(s: State, e: Event, n: nat)
    requires Allowed(s, e)
    ensures NextPc(s, e) == InDown(n) <==> e == CallDown(n) || (s.pc[s.k.cur] == InDown(n) && !LastTurn(s, e, n))
  {
  }

  /** One event's share of the balance. */
  lemma BalanceStep(s: State, e: Event, n: nat)
    requires SyncInv(s) && Allowed(s, e) && User(n) in s.k.semas
    ensures KernelAfter(s, e).Some? && User(n) in Step(s, e).k.semas
    ensures var s' := Step(s, e);
            s'.k.semas[User(n)].value + (if e == CallTryDown(n) && Available(s.k, User(n)) then 1 else 0)
            + (if e == CallDown(n) then 1 else 0) + |Waiting(s, n)|
            == s.k.semas[User(n)].value + (if IsUp(s, e, User(n)) then 1 else 0) + |Waiting(s', n)|
  {
    EventUnits(s, e, User(n));
    TakenHow(s, e, n);
    WaitingSize(s, e, n);
  }

  lemma TakenHow(s: State, e: Event, n: nat)
    requires Allowed(s, e)
    ensures TakesUnit(s, e, User(n)) <==> (e == CallTryDown(n) && Available(s.k, User(n))) || LastTurn(s, e, n)
  {
  }

  lemma WaitingSize(s: State, e: Event, n: nat)
    requires Allowed(s, e) && KernelAfter(s, e).Some?
    ensures |Waiting(Step(s, e), n)|
            == |Waiting(s, n)| + (if e == CallDown(n) then 1 else 0) - (if LastTurn(s, e, n) then 1 else 0)
  {
    WaitingStep(s, e, n);
    SameWaiting(s, e, n);
  }

  lemma SameWaiting(s: State, e: Event, n: nat)
    requires Allowed(s, e) && KernelAfter(s, e).Some?
    ensures Waiting(Step(s, e), n) == Waiting(Local(s, e), n)
  {
  }

  /** Every sema_down that has returned has taken exactly one unit, and no other has: value, successful
      tries and calls balance against ups and threads still inside. */
  lemma {:induction false} DownsReturnWithUnit(s: State, run: seq<Event>, n: nat)
    requires SyncInv(s) && IsTrace(s, run) && User(n) in s.k.semas
    ensures User(n) in End(s, run).k.semas
    ensures var s' := End(s, run);
            s'.k.semas[User(n)].value + Tries(s, run, n) + CallsOf(run, CallDown(n)) + |Waiting(s, n)|
            == s.k.semas[User(n)].value + UpEvents(s, run, User(n)) + |Waiting(s', n)|
    decreases |run|
  {
    if run != [] {
      var s1 := Step(s, run[0]);
      StepKeeps(s, run[0]);
      BalanceStep(s, run[0], n);
      DownsReturnWithUnit(s1, run[1..], n);
      assert End(s, run) == End(s1, run[1..]);
    }
  }

  // ------------------------------------------------------------------
  // A trace is a run of the scheduler

  /** The scheduler and semaphore actions of a trace. */
  ghost function Actions(s: State, run: seq<Event>): seq<Action>
    requires IsTrace(s, run)
    decreases |run|
  {
    if run == [] then [] else ActionsOf(s, run[0]) + Actions(Step(s, run[0]), run[1..])
  }

  function ActionsOf(s: State, e: Event): seq<Action>
    requires s.k.cur in s.pc
  {
    if ActionOf(s, e) == None then [] else [ActionOf(s, e).value]
  }

  ghost function TickEvents(run: seq<Event>): nat {
    if run == [] then 0 else (if run[0].Tick? then 1 else 0) + TickEvents(run[1..])
  }

  lemma Prepended(k: Kernel, a: Action, rest: seq<Action>)
    requires Enabled(k, a) && Apply(k, a).Some? && IsRun(Apply(k, a).value, rest)
    ensures IsRun(k, [a] + rest) && After(k, [a] + rest) == After(Apply(k, a).value, rest)
  {
    var run := [a] + rest;
    assert run[0] == a && run[1..] == rest;
  }

  lemma CountsPrepended(a: Action, rest: seq<Action>, x: Sid)
    ensures Ups([a] + rest, x) == (if a == AUp(x) then 1 else 0) + Ups(rest, x)
    ensures Ticks([a] + rest) == (if a.ATick? then 1 else 0) + Ticks(rest)
  {
    var run := [a] + rest;
    assert run[0] == a && run[1..] == rest;
  }

  /** So everything proved of runs of the scheduler holds of interleavings. */
  lemma {:induction false} TraceIsRun(s: State, run: seq<Event>)
    requires SyncInv(s) && IsTrace(s, run)
    ensures IsRun(s.k, Actions(s, run)) && After(s.k, Actions(s, run)) == End(s, run).k
    decreases |run|
  {
    if run != [] {
      var s1 := Step(s, run[0]);
      StepKeeps(s, run[0]);
      TraceIsRun(s1, run[1..]);
      FirstAction(s, run[0], Actions(s1, run[1..]));
    }
  }

  lemma FirstAction(s: State, e: Event, rest: seq<Action>)
    requires SyncInv(s) && Allowed(s, e) && KernelAfter(s, e).Some? && IsRun(Step(s, e).k, rest)
    ensures IsRun(s.k, ActionsOf(s, e) + rest) && After(s.k, ActionsOf(s, e) + rest) == After(Step(s, e).k, rest)
  {
    if ActionOf(s, e).Some? {
      EventApplies(s, e, ActionOf(s, e).value);
      Prepended(s.k, ActionOf(s, e).value, rest);
    } else {
      assert ActionsOf(s, e) + rest == rest;
    }
  }

  /** Its sema_ups and ticks are those of the trace. */
  lemma {:induction false} TraceCounts(s: State, run: seq<Event>, x: Sid)
    requires IsTrace(s, run)
    ensures Ups(Actions(s, run), x) == UpEvents(s, run, x) && Ticks(Actions(s, run)) == TickEvents(run)
    decreases |run|
  {
    if run != [] {
      var s1 := Step(s, run[0]);
      TraceCounts(s1, run[1..], x);
      FirstCount(s, run[0], Actions(s1, run[1..]), x);
    }
  }

  lemma FirstCount(s: State, e: Event, rest: seq<Action>, x: Sid)
    requires Allowed(s, e)
    ensures Ups(ActionsOf(s, e) + rest, x) == (if IsUp(s, e, x) then 1 else 0) + Ups(rest, x)
    ensures Ticks(ActionsOf(s, e) + rest) == (if e.Tick? then 1 else 0) + Ticks(rest)
  {
    UpIsAction(s, e, x);
    TickIsAction(s, e);
    if ActionOf(s, e).Some? {
      CountsPrepended(ActionOf(s, e).value, rest, x);
    } else {
      assert ActionsOf(s, e) + rest == rest;
    }
  }

  lemma TickIsAction(s: State, e: Event)
    requires Allowed(s, e)
    ensures ActionOf(s, e) == Some(ATick) <==> e.Tick?
  {
  }

  lemma Prefixed(s: State, run: seq<Event>, m: nat)
    requires IsTrace(s, run) && 0 < m <= |run| && IsTrace(Step(s, run[0]), run[1..][..m - 1])
    ensures IsTrace(s, run[..m])
    ensures Actions(s, run[..m]) == ActionsOf(s, run[0]) + Actions(Step(s, run[0]), run[1..][..m - 1])
  {
    assert run[..m][0] == run[0] && run[..m][1..] == run[1..][..m - 1];
  }

  /** Each point of that run is a point of the trace. */
  lemma {:induction false} PointOf(s: State, run: seq<Event>, n: nat) returns (m: nat)
    requires SyncInv(s) && IsTrace(s, run) && n <= |Actions(s, run)|
    ensures m <= |run| && IsTrace(s, run[..m]) && Actions(s, run[..m]) == Actions(s, run)[..n]
    decreases |run|
  {
    if n == 0 {
      m := 0;
      assert run[..0] == [];
    } else {
      var s1, a := Step(s, run[0]), |ActionsOf(s, run[0])|;
      StepKeeps(s, run[0]);
      var j := PointOf(s1, run[1..], n - a);
      m := j + 1;
      Prefixed(s, run, m);
      TakeConcat(ActionsOf(s, run[0]), Actions(s1, run[1..]), n);
    }
  }

  /** However threads interleave, the thread at index i of ready_list runs within (i + 1) * 4 ticks. */
  lemma RunsInTime(s: State, run: seq<Event>, i: nat) returns (m: nat)
    requires SyncInv(s) && IsTrace(s, run) && i < |s.k.ready| && TickEvents(run) >= (i + 1) * 4
    ensures m <= |run| && IsTrace(s, run[..m]) && End(s, run[..m]).k.cur == s.k.ready[i]
  {
    TraceIsRun(s, run);
    TraceCounts(s, run, User(0));
    var n := WaitIsBounded(s.k, Actions(s, run), i);
    m := PointOf(s, run, n);
    TraceIsRun(s, run[..m]);
  }

  /** However threads interleave, the thread at index i of a wait list sleeps through i sema_ups, and
      the next one makes it READY. */
  lemma WokenInTurn(s: State, run: seq<Event>, e: Event, x: Sid, i: nat)
    requires SyncInv(s) && IsTrace(s, run) && x in s.k.semas && i < |s.k.semas[x].waiters| && UpEvents(s, run, x) == i
    requires Allowed(End(s, run), e) && IsUp(End(s, run), e, x)
    ensures var s1, t := End(s, run), s.k.semas[x].waiters[i];
            && KernelAfter(s1, e).Some? && t in s1.k.status && s1.k.status[t] == Blocked
            && t in Step(s1, e).k.status && Step(s1, e).k.status[t] == Ready && t in Step(s1, e).k.ready
  {
    var s1 := End(s, run);
    StillWaiting(s, run, x, i);
    UpEventDoes(s1, e, x);
    var k' := Step(s1, e).k;
    assert k'.ready[|s1.k.ready|] == s.k.semas[x].waiters[i];
  }

  lemma StillWaiting(s: State, run: seq<Event>, x: Sid, i: nat)
    requires SyncInv(s) && IsTrace(s, run) && x in s.k.semas && i < |s.k.semas[x].waiters| && UpEvents(s, run, x) == i
    ensures var s1 := End(s, run);
            && SyncInv(s1) && x in s1.k.semas && s1.k.semas[x].waiters != []
            && s1.k.semas[x].waiters[0] == s.k.semas[x].waiters[i]
  {
    TraceKeeps(s, run);
    TraceIsRun(s, run);
    TraceCounts(s, run, x);
    FrontAfter(s.k, Actions(s, run), End(s, run).k, x, i);
  }

  lemma FrontAfter(k: Kernel, acts: seq<Action>, k': Kernel, x: Sid, i: nat)
    requires Inv(k) && IsRun(k, acts) && After(k, acts) == k' && x in k.semas && i < |k.semas[x].waiters|
    requires Ups(acts, x) == i
    ensures x in k'.semas && k'.semas[x].waiters != [] && k'.semas[x].waiters[0] == k.semas[x].waiters[i]
  {
    WaitersMoveUp(k, acts, x, i);
  }
}
