/** What each lock and condition variable call has done by the time it returns, whatever the other
    threads and interrupt handlers do between its call and its return. */
module SynchCalls {
  import opened Basics
  import opened Scheduler
  import opened SchedulerRuns
  import opened Synch
  import opened SynchRuns

  /** The current thread makes the call `run[0]`, and the trace ends when that call returns. */
  ghost predicate CallReturns(s: State, run: seq<Event>)
    requires IsTrace(s, run)
  {
    && run != [] && !run[0].Go? && !run[0].Tick? && !run[0].Interrupt? && s.k.cur in s.pc && s.pc[s.k.cur] == Code
    && InCall(Step(s, run[0]), run[1..], s.k.cur)
    && s.k.cur in End(s, run).pc && End(s, run).pc[s.k.cur] == Code
  }

  /** An event of another thread, a tick or an interrupt leaves a thread where it is in its call. */
  lemma OthersLeave(s: State, e: Event, t: Tid)
    requires Allowed(s, e) && KernelAfter(s, e).Some? && t in s.pc && s.pc[t] != Code && (t != s.k.cur || !e.Go?)
    ensures t in Step(s, e).pc && Step(s, e).pc[t] == s.pc[t]
  {
    PcAfter(s, e);
  }

  // ------------------------------------------------------------------
  // lock_acquire, lock_try_acquire

  ghost predicate InAcquire(s: State, t: Tid, l: nat) {
    t in s.pc && l in s.holder && (s.pc[t] == Acquiring(l) || s.pc[t] == Acquired(l))
  }

  ghost predicate HoldsLock(s: State, t: Tid, l: nat) {
    t in s.pc && s.pc[t] == Code && l in s.holder && s.holder[l] == Some(t)
  }

  lemma AcquireStep(s: State, e: Event, t: Tid, l: nat)
    requires SyncInv(s) && Allowed(s, e) && KernelAfter(s, e).Some? && InAcquire(s, t, l)
    ensures InAcquire(Step(s, e), t, l) || HoldsLock(Step(s, e), t, l)
  {
    assert PcOk(s, s.k.cur);
    LocalHolder(s, e);
    if t == s.k.cur && e.Go? { AcquireOwn(s, l); } else { OthersLeave(s, e, t); }
  }

  lemma AcquireOwn(s: State, l: nat)
    requires Allowed(s, Go) && InAcquire(s, s.k.cur, l)
    ensures InAcquire(Local(s, Go), s.k.cur, l) || HoldsLock(Local(s, Go), s.k.cur, l)
  {
  }

  lemma {:induction false} AcquireEnds(s: State, run: seq<Event>, t: Tid, l: nat)
    requires SyncInv(s) && IsTrace(s, run) && (InAcquire(s, t, l) || (run == [] && HoldsLock(s, t, l)))
    requires InCall(s, run, t) && t in End(s, run).pc && End(s, run).pc[t] == Code
    ensures HoldsLock(End(s, run), t, l)
    decreases |run|
  {
    if run != [] {
      var s1 := Step(s, run[0]);
      StepKeeps(s, run[0]);
      AcquireStep(s, run[0], t, l);
      if !InAcquire(s1, t, l) { assert run[1..] == []; }
      AcquireEnds(s1, run[1..], t, l);
    }
  }

  /** lock_acquire returns holding the lock, and so does a lock_try_acquire that found it free. */
  lemma AcquireReturns(s: State, run: seq<Event>, l: nat)
    requires SyncInv(s) && IsTrace(s, run) && CallReturns(s, run)
    requires run[0] == CallAcquire(l) || (run[0] == CallTryAcquire(l) && Available(s.k, LockSema(l)))
    ensures HoldsLock(End(s, run), s.k.cur, l)
  {
    StepKeeps(s, run[0]);
    PcAfter(s, run[0]);
    AcquireEnds(Step(s, run[0]), run[1..], s.k.cur, l);
  }

  /** A lock_try_acquire that did not returns at once, and nothing has changed. */
  lemma TryAcquireFails(s: State, l: nat)
    requires SyncInv(s) && Allowed(s, CallTryAcquire(l)) && !Available(s.k, LockSema(l))
    ensures KernelAfter(s, CallTryAcquire(l)).Some?
    ensures var s' := Step(s, CallTryAcquire(l));
            && GoesOn(s.k, s'.k) && s'.pc == s.pc && s'.holder == s.holder && s.holder[l] != Some(s.k.cur)
            && s'.k.semas.Keys == s.k.semas.Keys
            && forall x :: x in s.k.semas ==> s'.k.semas[x].value == s.k.semas[x].value
  {
    TryEventDoes(s, CallTryAcquire(l), LockSema(l));
  }

  // ------------------------------------------------------------------
  // lock_release

  ghost predicate InRelease(s: State, t: Tid, l: nat) { t in s.pc && s.pc[t] == Releasing(l, Return) }

  /** The lock is free: no holder, nobody inside, and its unit there to be taken. */
  ghost predicate IsFree(s: State, l: nat) {
    l in s.holder && s.holder[l] == None && LockSema(l) in s.k.semas && s.k.semas[LockSema(l)].value == 1
  }

  lemma ReleaseStep(s: State, e: Event, t: Tid, l: nat)
    requires SyncInv(s) && Allowed(s, e) && KernelAfter(s, e).Some? && InRelease(s, t, l)
    ensures if t == s.k.cur && e.Go? then t in Step(s, e).pc && Step(s, e).pc[t] == Code && IsFree(Step(s, e), l)
            else InRelease(Step(s, e), t, l)
  {
    assert PcOk(s, t);
    if t == s.k.cur && e.Go? {
      assert LockOk(s, l) && Inside(s, t, l);
      UpEventDoes(s, e, LockSema(l));
    } else {
      OthersLeave(s, e, t);
    }
  }

  lemma {:induction false} ReleaseEnds(s: State, run: seq<Event>, t: Tid, l: nat)
    requires SyncInv(s) && IsTrace(s, run) && (InRelease(s, t, l) || (run == [] && IsFree(s, l)))
    requires InCall(s, run, t) && t in End(s, run).pc && End(s, run).pc[t] == Code
    ensures IsFree(End(s, run), l)
    decreases |run|
  {
    if run != [] {
      var s1 := Step(s, run[0]);
      StepKeeps(s, run[0]);
      ReleaseStep(s, run[0], t, l);
      if !InRelease(s1, t, l) { assert run[1..] == []; }
      ReleaseEnds(s1, run[1..], t, l);
    }
  }

  /** When lock_release returns the lock is free; its longest waiter has been woken by the sema_up
      (UpEventDoes). */
  lemma ReleaseReturns(s: State, run: seq<Event>, l: nat)
    requires SyncInv(s) && IsTrace(s, run) && CallReturns(s, run) && run[0] == CallRelease(l)
    ensures IsFree(End(s, run), l)
  {
    StepKeeps(s, run[0]);
    ReleaseEnds(Step(s, run[0]), run[1..], s.k.cur, l);
  }

  // ------------------------------------------------------------------
  // cond_signal

  ghost predicate InSignal(s: State, t: Tid, c: nat, w: nat, q: seq<nat>) {
    t in s.pc && s.pc[t] == Signalling(c, w, false) && c in s.conds && s.conds[c].queue == q
  }

  /** Waiter w has been signalled and the others are still queued. */
  ghost predicate SignalDone(s: State, c: nat, w: nat, q: seq<nat>) {
    c in s.conds && s.conds[c].queue == q && w in s.recs && s.recs[w].phase == Signalled
  }

  /** Whoever holds the lock is alone with the queue. */
  lemma QueueStays(s: State, e: Event, t: Tid, c: nat)
    requires SyncInv(s) && Allowed(s, e) && KernelAfter(s, e).Some? && t in s.pc && c in s.conds && HolderIs(s, c, t)
    requires t == s.k.cur ==> s.pc[t].Signalling?
    ensures c in Step(s, e).conds && Step(s, e).conds[c] == s.conds[c]
  {
    CondAfter(s, e, c);
    NotInQueue(s, e, t, c);
  }

  lemma NotInQueue(s: State, e: Event, t: Tid, c: nat)
    requires SyncInv(s) && Allowed(s, e) && t in s.pc && c in s.conds && HolderIs(s, c, t)
    requires t == s.k.cur ==> s.pc[t].Signalling?
    ensures e != CallWait(c) && !Pops(s, e, c)
  {
    assert PcOk(s, s.k.cur);
  }

  lemma SignalStep(s: State, e: Event, t: Tid, c: nat, w: nat, q: seq<nat>)
    requires SyncInv(s) && Allowed(s, e) && KernelAfter(s, e).Some? && InSignal(s, t, c, w, q)
    ensures var s' := Step(s, e);
            if t == s.k.cur && e.Go? then t in s'.pc && s'.pc[t] == Code && SignalDone(s', c, w, q)
            else InSignal(s', t, c, w, q)
  {
    assert PcOk(s, t);
    QueueStays(s, e, t, c);
    if t == s.k.cur && e.Go? { PcAfterGo(s); } else { OthersLeave(s, e, t); }
  }

  lemma {:induction false} SignalEnds(s: State, run: seq<Event>, t: Tid, c: nat, w: nat, q: seq<nat>)
    requires SyncInv(s) && IsTrace(s, run) && (InSignal(s, t, c, w, q) || (run == [] && SignalDone(s, c, w, q)))
    requires InCall(s, run, t) && t in End(s, run).pc && End(s, run).pc[t] == Code
    ensures SignalDone(End(s, run), c, w, q)
    decreases |run|
  {
    if run != [] {
      var s1 := Step(s, run[0]);
      StepKeeps(s, run[0]);
      SignalStep(s, run[0], t, c, w, q);
      if !InSignal(s1, t, c, w, q) { assert run[1..] == []; }
      SignalEnds(s1, run[1..], t, c, w, q);
    }
  }

  /** When cond_signal returns exactly the waiter that had waited longest has been signalled. */
  lemma SignalReturns(s: State, run: seq<Event>, c: nat)
    requires SyncInv(s) && IsTrace(s, run) && CallReturns(s, run) && run[0] == CallSignal(c) && s.conds[c].queue != []
    ensures SignalDone(End(s, run), c, s.conds[c].queue[0], s.conds[c].queue[1..])
  {
    StepKeeps(s, run[0]);
    SignalStarts(s, c);
    SignalEnds(Step(s, run[0]), run[1..], s.k.cur, c, s.conds[c].queue[0], s.conds[c].queue[1..]);
  }

  lemma SignalStarts(s: State, c: nat)
    requires Allowed(s, CallSignal(c)) && s.conds[c].queue != []
    ensures InSignal(Local(s, CallSignal(c)), s.k.cur, c, s.conds[c].queue[0], s.conds[c].queue[1..])
  {
  }

  /** Without waiters cond_signal does nothing. */
  lemma SignalNobody(s: State, c: nat)
    requires SyncInv(s) && Allowed(s, CallSignal(c)) && s.conds[c].queue == []
    ensures KernelAfter(s, CallSignal(c)).Some? && Step(s, CallSignal(c)) == s
  {
  }

  // ------------------------------------------------------------------
  // cond_broadcast, cond_wait

  /** When cond_broadcast returns nobody is queued, and all who were have been signalled. */
  lemma BroadcastReturns(s: State, run: seq<Event>, c: nat, w: nat)
    requires SyncInv(s) && IsTrace(s, run) && CallReturns(s, run) && run[0] == CallBroadcast(c)
    ensures c in End(s, run).conds && End(s, run).conds[c].queue == []
    ensures w in s.conds[c].queue ==> w in End(s, run).recs && End(s, run).recs[w].phase == Signalled
  {
    var s1 := Step(s, run[0]);
    StepKeeps(s, run[0]);
    assert CondOk(s, c);
    BroadcastEmpties(s1, run[1..], s.k.cur, c);
    if w in s.conds[c].queue { BroadcastWakesAll(s1, run[1..], s.k.cur, c, w); }
  }

  /** cond_wait queues behind all who wait, and returns with the lock held, after a signal to it. */
  lemma WaitReturns(s: State, run: seq<Event>, c: nat)
    requires SyncInv(s) && IsTrace(s, run) && CallReturns(s, run) && run[0] == CallWait(c)
    ensures var s1, s', t, w := Step(s, run[0]), End(s, run), s.k.cur, s.made;
            && c in s1.conds && s1.conds[c].queue == s.conds[c].queue + [w] && w in s1.recs && s1.recs[w].thread == t
            && c in s'.conds && s'.conds[c].lock in s'.holder && s'.holder[s'.conds[c].lock] == Some(t)
            && w in s'.recs && s'.recs[w].phase == Signalled
  {
    StepKeeps(s, run[0]);
    WaitReturnsHolding(Step(s, run[0]), run[1..], s.k.cur, c, s.made);
  }

  // ------------------------------------------------------------------
  // thread_create

  ghost predicate InCreate(s: State, t: Tid, u: Tid) { t in s.pc && s.pc[t] == Starting(u) && u in s.pc }

  ghost predicate Created(s: State, u: Tid) {
    u in s.pc && u in s.k.status && s.k.status[u] == Ready && s.k.ready != [] && s.k.ready[|s.k.ready| - 1] == u
  }

  lemma CreateStep(s: State, e: Event, t: Tid, u: Tid)
    requires SyncInv(s) && Allowed(s, e) && KernelAfter(s, e).Some? && InCreate(s, t, u)
    ensures if t == s.k.cur && e.Go? then t in Step(s, e).pc && Step(s, e).pc[t] == Code && Created(Step(s, e), u)
            else InCreate(Step(s, e), t, u)
  {
    assert PcOk(s, t);
    LocalPc(s, e);
    if t == s.k.cur && e.Go? {
      EventApplies(s, e, AStart(u));
      CreateDoes(s.k, u);
    } else {
      OthersLeave(s, e, t);
    }
  }

  lemma {:induction false} CreateEnds(s: State, run: seq<Event>, t: Tid, u: Tid)
    requires SyncInv(s) && IsTrace(s, run) && (InCreate(s, t, u) || (run == [] && Created(s, u)))
    requires InCall(s, run, t) && t in End(s, run).pc && End(s, run).pc[t] == Code
    ensures Created(End(s, run), u)
    decreases |run|
  {
    if run != [] {
      var s1 := Step(s, run[0]);
      StepKeeps(s, run[0]);
      CreateStep(s, run[0], t, u);
      if !InCreate(s1, t, u) { assert run[1..] == []; }
      CreateEnds(s1, run[1..], t, u);
    }
  }

  /** When thread_create returns the new thread is READY, last on ready_list. */
  lemma CreateReturns(s: State, run: seq<Event>, u: Tid)
    requires SyncInv(s) && IsTrace(s, run) && CallReturns(s, run) && run[0] == CallCreate(u)
    ensures Created(End(s, run), u)
  {
    StepKeeps(s, run[0]);
    CreateStarts(s, u);
    CreateEnds(Step(s, run[0]), run[1..], s.k.cur, u);
  }

  lemma CreateStarts(s: State, u: Tid)
    requires Allowed(s, CallCreate(u))
    ensures InCreate(Local(s, CallCreate(u)), s.k.cur, u)
  {
  }
}
