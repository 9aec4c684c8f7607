/** What each call of thread.c and each semaphore operation does to the queues and counts, field by
    field, and what that adds up to over whole runs: units are counted by the calls made, and a time
    slice is exactly four ticks. */
module SchedulerRuns {
  import opened Basics
  import opened Scheduler

  // ------------------------------------------------------------------
  // Single calls

  /** The current thread goes on; ready_list, tick count and all statuses are as they were. */
  predicate GoesOn(k: Kernel, k': Kernel) {
    k'.cur == k.cur && k'.status == k.status && k'.ready == k.ready && k'.ticks == k.ticks
  }

  /** The other semaphores are as they were. */
  predicate OthersSame(k: Kernel, k': Kernel, s: Sid) {
    k'.semas.Keys == k.semas.Keys && forall x :: x in k.semas && x != s ==> k'.semas[x] == k.semas[x]
  }

  /** sema_up: one unit more; the longest waiter, if any, is READY, last on ready_list and off the wait
      list, and nobody else is. */
  lemma UpDoes(k: Kernel, s: Sid)
    requires Inv(k) && s in k.semas
    ensures Apply(k, AUp(s)).Some?
    ensures var k', q := Apply(k, AUp(s)).value, k.semas[s].waiters;
            && k'.cur == k.cur && k'.ticks == k.ticks && OthersSame(k, k', s)
            && k'.semas[s].value == k.semas[s].value + 1
            && if q == [] then GoesOn(k, k') && k'.semas[s].waiters == []
               else
                 && k'.semas[s].waiters == q[1..] && k'.ready == k.ready + [q[0]]
                 && k'.status == k.status[q[0] := Ready] && q[0] in k.status && k.status[q[0]] == Blocked
  {
    UpKeeps(k, s);
  }

  /** sema_try_down: a unit is taken exactly if there is one; nothing else changes. */
  lemma TryDownDoes(k: Kernel, s: Sid)
    requires Inv(k) && s in k.semas
    ensures Apply(k, ATryDown(s)).Some?
    ensures var k', v := Apply(k, ATryDown(s)).value, k.semas[s].value;
            && GoesOn(k, k') && OthersSame(k, k', s) && k'.semas[s].waiters == k.semas[s].waiters
            && k'.semas[s].value == if v > 0 then v - 1 else 0
  {
  }

  /** A turn of sema_down: a unit is taken, or the caller is BLOCKED at the end of the wait list and
      the next thread runs. */
  lemma DownDoes(k: Kernel, s: Sid)
    requires Inv(k) && Enabled(k, ADown(s))
    ensures Apply(k, ADown(s)).Some?
    ensures var k', v := Apply(k, ADown(s)).value, k.semas[s].value;
            && OthersSame(k, k', s)
            && if v > 0 then
                 GoesOn(k, k') && k'.semas[s].value == v - 1 && k'.semas[s].waiters == k.semas[s].waiters
               else
                 && k'.semas[s].value == 0 && k'.semas[s].waiters == k.semas[s].waiters + [k.cur]
                 && k.cur in k'.status && k'.status[k.cur] == Blocked && HandsOver(k, k', k.ready)
  {
    ActionKeeps(k, ADown(s));
    if k.semas[s].value == 0 {
      var k1 := Demote(Parked(k, s), Blocked);
      ParkedKeeps(k, s);
      NextIsAlive(k1);
    }
  }

  /** The front of q runs next, with a new time slice, or the idle thread if q is empty. */
  predicate HandsOver(k: Kernel, k': Kernel, q: seq<Tid>) {
    && k'.cur == (if q != [] then q[0] else k.idler) && k'.ready == (if q != [] then q[1..] else [])
    && k'.ticks == 0 && k'.cur in k'.status && k'.status[k'.cur] == Running
  }

  /** ready_list with the current thread at its end, unless that is the idle thread. */
  function Rotated(k: Kernel): seq<Tid> { if IsIdle(k, k.cur) then k.ready else k.ready + [k.cur] }

  /** thread_yield. */
  lemma YieldDoes(k: Kernel)
    requires Inv(k)
    ensures Apply(k, AYield).Some?
    ensures var k' := Apply(k, AYield).value;
            && HandsOver(k, k', Rotated(k)) && k'.semas == k.semas
            && (k'.cur != k.cur ==> k.cur in k'.status && k'.status[k.cur] == Ready)
            && (forall t :: t in k.status && t != k.cur && t != k'.cur ==>
                              t in k'.status && k'.status[t] == k.status[t])
  {
    ActionKeeps(k, AYield);
    EnqueuedKeeps(k, Enqueued(k));
    NextIsAlive(Enqueued(k));
    assert ThreadOk(k, k.cur, true);
  }

  /** The end of a time slice is a yield; every other tick is only counted. */
  lemma TickDoes(k: Kernel)
    requires Inv(k)
    ensures Apply(k, ATick).Some?
    ensures var k' := Apply(k, ATick).value;
            && k'.semas == k.semas
            && if k.ticks < 3 then
                 k'.cur == k.cur && k'.status == k.status && k'.ready == k.ready && k'.ticks == k.ticks + 1
               else
                 && HandsOver(k, k', Rotated(k))
                 && (k'.cur != k.cur ==> k.cur in k'.status && k'.status[k.cur] == Ready)
  {
    ActionKeeps(k, ATick);
    if k.ticks >= 3 {
      var k1 := Enqueued(k.(ticks := k.ticks + 1));
      EnqueuedKeeps(k, k1);
      NextIsAlive(k1);
      assert ThreadOk(k, k.cur, true);
    }
  }

  /** thread_exit: the next thread runs, and the page of the old one is freed, unless it is the initial
      thread. */
  lemma ExitDoes(k: Kernel)
    requires Inv(k) && Enabled(k, AExit)
    ensures Apply(k, AExit).Some?
    ensures var k' := Apply(k, AExit).value;
            && HandsOver(k, k', k.ready) && k'.semas == k.semas && k'.exited == k.exited + {k.cur}
            && (if k.cur == k.initial then k.cur in k'.status && k'.status[k.cur] == Dying && k'.freed == k.freed
                else k.cur !in k'.status && k'.freed == k.freed + [k.cur])
  {
    ActionKeeps(k, AExit);
    ExitingKeeps(k);
    NextIsAlive(Exiting(k));
    assert ThreadOk(k, k.cur, true);
  }

  /** thread_create makes a BLOCKED thread, and its thread_unblock puts it last on ready_list. */
  lemma CreateDoes(k: Kernel, t: Tid)
    requires Inv(k)
    ensures Enabled(k, ASpawn(t)) ==>
              && Apply(k, ASpawn(t)).Some?
              && var k' := Apply(k, ASpawn(t)).value;
                 && k'.cur == k.cur && k'.ready == k.ready && k'.ticks == k.ticks && k'.semas == k.semas
                 && k'.status == k.status[t := Blocked] && k'.newborn == k.newborn + {t}
    ensures Enabled(k, AStart(t)) ==>
              && Apply(k, AStart(t)).Some?
              && var k' := Apply(k, AStart(t)).value;
                 && k'.cur == k.cur && k'.ready == k.ready + [t] && k'.ticks == k.ticks && k'.semas == k.semas
                 && k'.status == k.status[t := Ready] && k'.newborn == k.newborn - {t}
  {
  }

  /** idle() announces itself, and later blocks so that any thread that is ready runs. */
  lemma IdleDoes(k: Kernel)
    requires Inv(k)
    ensures Enabled(k, AIdleInit) ==>
              && Apply(k, AIdleInit).Some?
              && var k' := Apply(k, AIdleInit).value; GoesOn(k, k') && k'.idleUp && k'.semas == k.semas
    ensures Enabled(k, AIdleBlock) ==>
              && Apply(k, AIdleBlock).Some?
              && var k' := Apply(k, AIdleBlock).value;
                 && HandsOver(k, k', k.ready) && k'.semas == k.semas
                 && (k.ready != [] ==> k.cur in k'.status && k'.status[k.cur] == Blocked)
  {
    if Enabled(k, AIdleBlock) {
      ActionKeeps(k, AIdleBlock);
      IdleBlockKeeps(k);
      NextIsAlive(Demote(k, Blocked));
      assert ThreadOk(k, k.cur, true);
    }
  }

  /** sema_init. */
  lemma InitDoes(k: Kernel, s: Sid, v: nat)
    requires Inv(k) && s !in k.semas
    ensures Apply(k, AInit(s, v)).Some?
    ensures var k' := Apply(k, AInit(s, v)).value;
            && GoesOn(k, k') && k'.semas.Keys == k.semas.Keys + {s}
            && k'.semas[s].value == v && k'.semas[s].waiters == []
            && forall x :: x in k.semas ==> k'.semas[x] == k.semas[x]
  {
  }

  // ------------------------------------------------------------------
  // Units

  /** The action finds a unit of x and takes it. */
  predicate Takes(k: Kernel, a: Action, x: Sid) {
    (a == ADown(x) || a == ATryDown(x)) && x in k.semas && k.semas[x].value > 0
  }

  /** How many units of x are taken in a run. */
  ghost function Taken(k: Kernel, run: seq<Action>, x: Sid): nat
    requires IsRun(k, run)
    decreases |run|
  {
    if run == [] then 0
    else (if Takes(k, run[0], x) then 1 else 0) + Taken(Apply(k, run[0]).value, run[1..], x)
  }

  lemma UnitStep(k: Kernel, a: Action, x: Sid)
    requires Inv(k) && Enabled(k, a) && x in k.semas && Apply(k, a).Some?
    ensures var k' := Apply(k, a).value;
            && x in k'.semas
            && k'.semas[x].value ==
               k.semas[x].value + (if a == AUp(x) then 1 else 0) - (if Takes(k, a, x) then 1 else 0)
  {
    match a
    case AUp(s) => UpDoes(k, s);
    case ATryDown(s) => TryDownDoes(k, s);
    case ADown(s) => DownDoes(k, s);
    case AYield => YieldDoes(k);
    case AExit => ExitDoes(k);
    case ATick => TickDoes(k);
    case ASpawn(t) => CreateDoes(k, t);
    case AStart(t) => CreateDoes(k, t);
    case AIdleInit => IdleDoes(k);
    case AIdleBlock => IdleDoes(k);
    case AInit(s, v) => InitDoes(k, s, v);
  }

  /** Over any run the value is what it was, plus the sema_ups made, minus the units taken. */
  lemma {:induction false} UnitsCounted(k: Kernel, run: seq<Action>, x: Sid)
    requires Inv(k) && IsRun(k, run) && x in k.semas
    ensures x in After(k, run).semas
    ensures After(k, run).semas[x].value == k.semas[x].value + Ups(run, x) - Taken(k, run, x)
    decreases |run|
  {
    if run != [] {
      var k1 := Apply(k, run[0]).value;
      ActionKeeps(k, run[0]);
      UnitStep(k, run[0], x);
      UnitsCounted(k1, run[1..], x);
      assert After(k, run) == After(k1, run[1..]);
    }
  }

  /** The history fields say the same: they count exactly the calls made. */
  lemma {:induction false} HistoryCounted(k: Kernel, run: seq<Action>, x: Sid)
    requires Inv(k) && IsRun(k, run) && x in k.semas
    ensures x in After(k, run).semas
    ensures After(k, run).semas[x].ups == k.semas[x].ups + Ups(run, x)
    ensures After(k, run).semas[x].downs == k.semas[x].downs + Taken(k, run, x)
    decreases |run|
  {
    if run != [] {
      var k1 := Apply(k, run[0]).value;
      ActionKeeps(k, run[0]);
      HistoryStep(k, run[0], x);
      HistoryCounted(k1, run[1..], x);
      assert After(k, run) == After(k1, run[1..]);
    }
  }

  lemma HistoryStep(k: Kernel, a: Action, x: Sid)
    requires Inv(k) && Enabled(k, a) && x in k.semas && Apply(k, a).Some?
    ensures var k' := Apply(k, a).value;
            && x in k'.semas
            && k'.semas[x].ups == k.semas[x].ups + (if a == AUp(x) then 1 else 0)
            && k'.semas[x].downs == k.semas[x].downs + (if Takes(k, a, x) then 1 else 0)
  {
    ActionEffect(k, a);
  }

  // ------------------------------------------------------------------
  // Time slices

  /** The action does not give up the processor of its own accord. */
  predicate KeepsRunning(k: Kernel, a: Action) {
    match a
    case ADown(s) => s in k.semas && k.semas[s].value > 0
    case AYield => false
    case AExit => false
    case AIdleBlock => false
    case _ => true
  }

  ghost predicate Undisturbed(k: Kernel, run: seq<Action>)
    requires IsRun(k, run)
    decreases |run|
  {
    run != [] ==> KeepsRunning(k, run[0]) && Undisturbed(Apply(k, run[0]).value, run[1..])
  }

  /** The processor is not taken away before the fourth tick ... */
  lemma {:induction false} SliceLasts(k: Kernel, run: seq<Action>)
    requires Inv(k) && IsRun(k, run) && Undisturbed(k, run) && k.ticks + Ticks(run) < 4
    ensures var k' := After(k, run);
            && k'.cur == k.cur && k'.ticks == k.ticks + Ticks(run) && k.ready <= k'.ready
            && k.cur in k'.status && k'.status[k.cur] == Running && k'.idler == k.idler
    decreases |run|
  {
    if run == [] {
      assert ThreadOk(k, k.cur, true);
    } else {
      var k1 := Apply(k, run[0]).value;
      ActionKeeps(k, run[0]);
      StaysOn(k, run[0]);
      SliceLasts(k1, run[1..]);
      assert After(k, run) == After(k1, run[1..]);
    }
  }

  lemma StaysOn(k: Kernel, a: Action)
    requires Inv(k) && Enabled(k, a) && Apply(k, a).Some? && KeepsRunning(k, a) && (a.ATick? ==> k.ticks < 3)
    ensures var k' := Apply(k, a).value;
            && k'.cur == k.cur && k'.ticks == k.ticks + (if a.ATick? then 1 else 0) && k.ready <= k'.ready
            && k'.idler == k.idler
  {
    ActionEffect(k, a);
    match a
    case AUp(s) => UpDoes(k, s);
    case ATryDown(s) => TryDownDoes(k, s);
    case ADown(s) => DownDoes(k, s);
    case ATick => TickDoes(k);
    case ASpawn(t) => CreateDoes(k, t);
    case AStart(t) => CreateDoes(k, t);
    case AIdleInit => IdleDoes(k);
    case AInit(s, v) => InitDoes(k, s, v);
  }

  /** ... and is taken away at it: the thread goes behind all that were ready, and runs on only if
      there are none. */
  lemma SliceEnds(k: Kernel, run: seq<Action>)
    requires Inv(k) && IsRun(k, run) && Undisturbed(k, run) && k.ticks + Ticks(run) == 3
    requires IsRun(k, run + [ATick])
    ensures var k1, k' := After(k, run), After(k, run + [ATick]);
            && k1.cur == k.cur && k.ready <= k1.ready && HandsOver(k1, k', Rotated(k1))
            && (k'.cur != k.cur ==> k.cur in k'.status && k'.status[k.cur] == Ready)
  {
    SliceLasts(k, run);
    RunKeeps(k, run);
    Appended(k, run, ATick);
    TickDoes(After(k, run));
  }

  lemma {:induction false} Appended(k: Kernel, run: seq<Action>, a: Action)
    requires IsRun(k, run) && IsRun(k, run + [a])
    ensures Apply(After(k, run), a).Some? && After(k, run + [a]) == Apply(After(k, run), a).value
    decreases |run|
  {
    var all := run + [a];
    if run == [] {
      assert all[1..] == [];
    } else {
      assert all[0] == run[0] && all[1..] == run[1..] + [a];
      Appended(Apply(k, run[0]).value, run[1..], a);
    }
  }
}
