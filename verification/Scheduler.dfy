/** The round-robin scheduler of thread.c and the semaphores of synch.c as a transition system.

    Every section that the source runs with interrupts off is one atomic action of the running
    thread, or of an interrupt.  A thread is identified by a number that is never used again. */
module Scheduler {
  import opened Basics

  type Tid = nat
  datatype Status = Running | Ready | Blocked | Dying

  /** Semaphores: those of callers, the one inside each lock, the one inside each cond_wait call. */
  datatype Sid = User(n: nat) | LockSema(lock: nat) | Waiter(w: nat)

  /** A semaphore with the history its accounting needs. */
  datatype Sema = Sema(value: nat, waiters: seq<Tid>, initial: nat, ups: nat, downs: nat)

  /** Where a thread is in sema_down's loop: on the wait list, or woken and not yet re-checked. */
  datatype Wait = Awake | Asleep(s: Sid) | Woken(s: Sid)

  datatype Kernel = Kernel(
    cur: Tid,                    // the running thread
    status: map<Tid, Status>,    // one entry per struct thread whose page is in use
    ready: seq<Tid>,             // ready_list
    idler: Tid,                  // the thread that runs idle()
    idleUp: bool,                // idle_thread has been set
    initial: Tid,                // initial_thread
    ticks: nat,                  // thread_ticks
    semas: map<Sid, Sema>,
    wait: map<Tid, Wait>,
    newborn: set<Tid>,           // created, not yet passed to thread_unblock
    exited: set<Tid>,            // called thread_exit
    freed: seq<Tid>)             // pages returned, in order

  const TIME_SLICE: nat := 4

  predicate IsIdle(k: Kernel, t: Tid) { k.idleUp && t == k.idler }

  // ------------------------------------------------------------------
  // thread.c

  function NextThreadToRun(k: Kernel): Option<Tid> {
    if k.ready != [] then Some(k.ready[0]) else if k.idleUp then Some(k.idler) else None
  }

  /** thread_schedule_tail: the new thread is marked running and destroys a dying predecessor. */
  function ScheduleTail(k: Kernel, prev: Option<Tid>): Kernel
    requires prev.Some? ==> prev.value in k.status
  {
    var k1 := k.(status := k.status[k.cur := Running], ticks := 0);
    if prev.Some? && k.status[prev.value] == Dying && prev.value != k.initial
    then k1.(status := k1.status - {prev.value}, wait := k1.wait - {prev.value}, freed := k1.freed + [prev.value])
    else k1
  }

  /** schedule: the caller has already given up RUNNING. */
  function Schedule(k: Kernel): Kernel
    requires k.cur in k.status && NextThreadToRun(k).Some?
  {
    var next := NextThreadToRun(k).value;
    var k1 := k.(cur := next, ready := if k.ready != [] then k.ready[1..] else []);
    ScheduleTail(k1, if k.cur != next then Some(k.cur) else None)
  }

  function Demote(k: Kernel, to: Status): Kernel { k.(status := k.status[k.cur := to]) }

  function Block(k: Kernel): Kernel
    requires k.cur in k.status && NextThreadToRun(Demote(k, Blocked)).Some?
  {
    Schedule(Demote(k, Blocked))
  }

  function Enqueued(k: Kernel): Kernel {
    Demote(k, Ready).(ready := if IsIdle(k, k.cur) then k.ready else k.ready + [k.cur])
  }

  function Exiting(k: Kernel): Kernel { Demote(k, Dying).(exited := k.exited + {k.cur}) }

  function Unblock(k: Kernel, t: Tid): Kernel {
    k.(ready := k.ready + [t], status := k.status[t := Ready])
  }

  // ------------------------------------------------------------------
  // synch.c: semaphores

  function Parked(k: Kernel, s: Sid): Kernel
    requires s in k.semas
  {
    var m := k.semas[s];
    k.(semas := k.semas[s := m.(waiters := m.waiters + [k.cur])], wait := k.wait[k.cur := Asleep(s)])
  }

  /** One turn of sema_down's loop: take a unit, or join the wait list and block. */
  function Down(k: Kernel, s: Sid): Kernel
    requires s in k.semas && k.cur in k.status
    requires k.semas[s].value == 0 ==> NextThreadToRun(Demote(Parked(k, s), Blocked)).Some?
  {
    var m := k.semas[s];
    if m.value == 0 then Block(Parked(k, s))
    else k.(semas := k.semas[s := m.(value := m.value - 1, downs := m.downs + 1)], wait := k.wait[k.cur := Awake])
  }

  function TryDown(k: Kernel, s: Sid): Kernel
    requires s in k.semas
  {
    var m := k.semas[s];
    if m.value == 0 then k
    else k.(semas := k.semas[s := m.(value := m.value - 1, downs := m.downs + 1)])
  }

  function Up(k: Kernel, s: Sid): Kernel
    requires s in k.semas
  {
    var m := k.semas[s];
    if m.waiters == [] then k.(semas := k.semas[s := m.(value := m.value + 1, ups := m.ups + 1)])
    else
      var t := m.waiters[0];
      Unblock(k, t).(semas := k.semas[s := m.(waiters := m.waiters[1..], value := m.value + 1, ups := m.ups + 1)],
                     wait := k.wait[t := Woken(s)])
  }

  // ------------------------------------------------------------------
  // The invariant, thread by thread and semaphore by semaphore

  /** The threads popped from s's wait list that have not yet re-checked its value. */
  ghost function WokenFrom(k: Kernel, s: Sid): set<Tid> {
    set t | t in k.wait && k.wait[t] == Woken(s)
  }

  /** What holds of one thread.  `on` says that the current thread is RUNNING, that is, that we are
      not inside schedule(). */
  ghost predicate ThreadOk(k: Kernel, t: Tid, on: bool)
    requires t in k.status
  {
    var st := k.status[t];
    && (st == Running <==> on && t == k.cur)
    && (t in k.ready <==> st == Ready && !IsIdle(k, t))
    && (st == Dying <==> t in k.exited)
    && t !in k.freed
    && t in k.wait
    && (match k.wait[t]
        case Awake => st == Blocked ==> t in k.newborn || IsIdle(k, t)
        case Asleep(s) => s in k.semas && t in k.semas[s].waiters && st == Blocked
        case Woken(s) => s in k.semas && (st == Ready || st == Running))
    && (t in k.newborn ==> st == Blocked && k.wait[t] == Awake)
    && (t == k.idler ==> k.wait[t] == Awake && t !in k.newborn && st != Dying)
  }

  /** What holds of one semaphore. */
  ghost predicate SemaOk(k: Kernel, s: Sid)
    requires s in k.semas
  {
    var m := k.semas[s];
    && NoDup(m.waiters)
    && (forall t :: t in m.waiters ==> t in k.wait && k.wait[t] == Asleep(s))
    && (m.waiters != [] ==> m.value <= |WokenFrom(k, s)|)
    && m.value + m.downs == m.initial + m.ups
  }

  ghost predicate Threads(k: Kernel, on: bool) {
    forall t {:trigger ThreadOk(k, t, on)} :: t in k.status ==> ThreadOk(k, t, on)
  }

  ghost predicate Semas(k: Kernel) {
    forall s {:trigger SemaOk(k, s)} :: s in k.semas ==> SemaOk(k, s)
  }

  ghost predicate Lists(k: Kernel, on: bool) {
    && k.cur in k.status && k.initial in k.status && k.idler in k.status && k.idler != k.initial
    && k.wait.Keys == k.status.Keys && k.newborn <= k.status.Keys
    && NoDup(k.ready) && (forall t :: t in k.ready ==> t in k.status)
    && (!k.idleUp ==> k.idler in k.ready || (on && k.cur == k.idler))
    && NoDup(k.freed) && k.initial !in k.freed
    && (forall t :: t in k.freed ==> t in k.exited && t !in k.status)
    && (forall t :: t in k.exited ==> t in k.freed || t == k.initial || (!on && t == k.cur))
  }

  ghost predicate Inv(k: Kernel) {
    Lists(k, true) && Threads(k, true) && Semas(k) && k.ticks < TIME_SLICE
  }

  /** The state schedule() starts from: the current thread has given up RUNNING. */
  ghost predicate Descheduled(k: Kernel) {
    Lists(k, false) && Threads(k, false) && Semas(k)
  }

  // What the invariant says, property by property.

  /** Exactly one thread is RUNNING, and it is the current one. */
  ghost predicate OneRunning(k: Kernel) {
    && k.cur in k.status
    && forall t :: t in k.status ==> (k.status[t] == Running <==> t == k.cur)
  }

  /** Exactly the non-idle READY threads are on ready_list, each once. */
  ghost predicate ReadyExact(k: Kernel) {
    && NoDup(k.ready)
    && forall t :: t in k.ready <==> (t in k.status && k.status[t] == Ready && !IsIdle(k, t))
  }

  /** A thread on a wait list is BLOCKED, is there once, and is on no other wait list nor ready_list. */
  ghost predicate WaitListsExclusive(k: Kernel) {
    && (forall s :: s in k.semas ==> NoDup(k.semas[s].waiters))
    && (forall s, t :: s in k.semas && t in k.semas[s].waiters ==>
          t in k.status && k.status[t] == Blocked && t !in k.ready)
    && (forall s, s', t ::
          s in k.semas && s' in k.semas && t in k.semas[s].waiters && t in k.semas[s'].waiters ==> s == s')
  }

  /** No thread is forgotten: a BLOCKED one is on a wait list, newly created, or the idle thread. */
  ghost predicate BlockedForAReason(k: Kernel) {
    forall t :: t in k.status && k.status[t] == Blocked ==>
      || t in k.newborn || IsIdle(k, t)
      || exists s :: s in k.semas && t in k.semas[s].waiters
  }

  /** Pages are freed once each, only after an exit, never the initial thread's, never one in use;
      and every exited thread but the initial one has had its page freed. */
  ghost predicate PagesExact(k: Kernel) {
    && NoDup(k.freed) && k.initial in k.status && k.initial !in k.freed
    && (forall t :: t in k.freed ==> t in k.exited && t !in k.status)
    && (forall t :: t in k.exited && t != k.initial ==> t in k.freed)
    && k.cur !in k.freed && k.cur !in k.exited
  }

  /** No lost wakeup: units left while someone sleeps are covered by threads already on their way,
      each of which is READY or RUNNING. */
  ghost predicate NoLostWakeup(k: Kernel) {
    && (forall s :: s in k.semas && k.semas[s].waiters != [] ==> k.semas[s].value <= |WokenFrom(k, s)|)
    && (forall s, t :: t in WokenFrom(k, s) ==> t in k.status && (k.status[t] == Ready || k.status[t] == Running))
  }

  /** value + completed downs == initial value + ups. */
  ghost predicate Balanced(k: Kernel) {
    forall s :: s in k.semas ==> k.semas[s].value + k.semas[s].downs == k.semas[s].initial + k.semas[s].ups
  }

  lemma InvMeansThreads(k: Kernel)
    requires Inv(k)
    ensures OneRunning(k) && ReadyExact(k) && PagesExact(k)
  {
    forall t | t in k.status
      ensures k.status[t] == Running <==> t == k.cur
      ensures t in k.ready <==> k.status[t] == Ready && !IsIdle(k, t)
      ensures k.status[t] == Dying <==> t in k.exited
    {
      assert ThreadOk(k, t, true);
    }
    assert ThreadOk(k, k.cur, true);
  }

  lemma InvMeansWaits(k: Kernel)
    requires Inv(k)
    ensures WaitListsExclusive(k) && BlockedForAReason(k)
  {
    forall s | s in k.semas ensures SemaOk(k, s) {
    }
    forall t | t in k.status ensures ThreadOk(k, t, true) {
    }
  }

  lemma InvMeansWakeups(k: Kernel)
    requires Inv(k)
    ensures NoLostWakeup(k) && Balanced(k)
  {
    forall s | s in k.semas ensures SemaOk(k, s) {
    }
    forall s, t | t in WokenFrom(k, s)
      ensures t in k.status && (k.status[t] == Ready || k.status[t] == Running) {
      assert ThreadOk(k, t, true);
    }
  }

  // ------------------------------------------------------------------
  // schedule()

  /** schedule() always finds a thread, which is in use and not dying; when it frees the page of
      the thread it switches from, that is another thread. */
  lemma NextIsAlive(k: Kernel)
    requires Descheduled(k)
    ensures NextThreadToRun(k).Some?
    ensures var n := NextThreadToRun(k).value;
            && n in k.status && k.status[n] != Dying
            && (k.status[n] == Ready || IsIdle(k, n))
            && (k.status[k.cur] == Dying ==> n != k.cur)
  {
    if k.ready != [] {
      assert k.ready[0] in k.ready;
      assert ThreadOk(k, k.ready[0], false);
    }
    assert ThreadOk(k, k.idler, false);
  }

  lemma ScheduleKeeps(k: Kernel)
    requires Descheduled(k)
    ensures NextThreadToRun(k).Some? && Inv(Schedule(k))
  {
    NextIsAlive(k);
    PoppedMembers(k.ready);
    ScheduleLists(k);
    ScheduleThreads(k);
    ScheduleSemas(k);
  }

  lemma ScheduleLists(k: Kernel)
    requires Descheduled(k) && NextThreadToRun(k).Some?
    ensures Lists(Schedule(k), true)
  {
    NextIsAlive(k);
    PoppedMembers(k.ready);
    assert ThreadOk(k, k.cur, false) && ThreadOk(k, k.idler, false);
    ScheduleFrees(k);
  }

  /** schedule() frees at most the page of the thread it leaves. */
  lemma ScheduleFrees(k: Kernel)
    requires Descheduled(k) && NextThreadToRun(k).Some?
    ensures var k' := Schedule(k);
            && NoDup(k'.freed) && k'.initial !in k'.freed
            && (forall t :: t in k'.freed ==> t in k'.exited && t !in k'.status)
            && (forall t :: t in k'.exited ==> t in k'.freed || t == k'.initial)
  {
    NextIsAlive(k);
    assert ThreadOk(k, k.cur, false);
    AppendedMembers(k.freed, k.cur);
  }

  lemma ScheduleThreads(k: Kernel)
    requires Descheduled(k) && NextThreadToRun(k).Some?
    ensures Threads(Schedule(k), true)
  {
    NextIsAlive(k);
    PoppedMembers(k.ready);
    AppendedMembers(k.freed, k.cur);
    var k' := Schedule(k);
    forall t | t in k'.status ensures ThreadOk(k', t, true) {
      assert ThreadOk(k, t, false);
    }
  }

  lemma ScheduleSemas(k: Kernel)
    requires Descheduled(k) && NextThreadToRun(k).Some?
    ensures Semas(Schedule(k)) && Schedule(k).ticks == 0
  {
    var k' := Schedule(k);
    assert ThreadOk(k, k.cur, false);
    forall s | s in k'.semas ensures SemaOk(k', s) {
      assert SemaOk(k, s);
      assert WokenFrom(k', s) == WokenFrom(k, s);
    }
  }

  // ------------------------------------------------------------------
  // Actions

  datatype Action =
    | ADown(s: Sid)          // a turn of sema_down's loop
    | AUp(s: Sid)            // sema_up, by a thread or an interrupt handler
    | ATryDown(s: Sid)
    | AYield
    | AExit
    | ATick                  // timer interrupt, with the yield it may ask for on return
    | ASpawn(t: Tid)         // thread_create up to init_thread
    | AStart(t: Tid)         // thread_create's thread_unblock
    | AIdleInit              // idle() stores idle_thread
    | AIdleBlock             // idle() blocks
    | AInit(s: Sid, value: nat)

  /** What the source demands of the caller of each action. */
  ghost predicate Enabled(k: Kernel, a: Action) {
    match a
    case ADown(s) => s in k.semas && k.cur != k.idler && k.cur in k.wait && k.wait[k.cur] in {Awake, Woken(s)}
    case AUp(s) => s in k.semas
    case ATryDown(s) => s in k.semas
    case AYield => true
    case AExit => k.cur != k.idler && k.cur in k.wait && k.wait[k.cur] == Awake
    case ATick => true
    case ASpawn(t) => t !in k.status && t !in k.freed
    case AStart(t) => t in k.newborn
    case AIdleInit => k.cur == k.idler && !k.idleUp
    case AIdleBlock => k.cur == k.idler && k.idleUp
    case AInit(s, v) => s !in k.semas
  }

  /** Where the action ends in schedule(), the state that schedule() starts from. */
  function BeforeSchedule(k: Kernel, a: Action): Option<Kernel> {
    match a
    case ADown(s) => if s in k.semas && k.semas[s].value == 0 then Some(Demote(Parked(k, s), Blocked)) else None
    case AYield => Some(Enqueued(k))
    case AExit => Some(Exiting(k))
    case ATick => if k.ticks + 1 >= TIME_SLICE then Some(Enqueued(k.(ticks := k.ticks + 1))) else None
    case AIdleBlock => Some(Demote(k, Blocked))
    case _ => None
  }

  /** The action ends in schedule(). */
  ghost predicate Switches(k: Kernel, a: Action) { BeforeSchedule(k, a).Some? }

  /** The effect of an action; schedule() without a thread to run would be a kernel panic. */
  function Apply(k: Kernel, a: Action): Option<Kernel> {
    if BeforeSchedule(k, a).Some? then
      var k1 := BeforeSchedule(k, a).value;
      if k1.cur in k1.status && NextThreadToRun(k1).Some? then Some(Schedule(k1)) else None
    else
      match a
      case ADown(s) => if s in k.semas && k.semas[s].value > 0 && k.cur in k.status then Some(Down(k, s)) else None
      case AUp(s) => if s in k.semas then Some(Up(k, s)) else None
      case ATryDown(s) => if s in k.semas then Some(TryDown(k, s)) else None
      case ATick => Some(k.(ticks := k.ticks + 1))
      case ASpawn(t) => Some(k.(status := k.status[t := Blocked], wait := k.wait[t := Awake],
          newborn := k.newborn + {t}))
      case AStart(t) => Some(Unblock(k, t).(newborn := k.newborn - {t}))
      case AIdleInit => Some(k.(idleUp := true))
      case AInit(s, v) => Some(k.(semas := k.semas[s := Sema(v, [], v, 0, 0)]))
      case _ => None
  }

  // Giving up the processor.

  lemma EnqueuedKeeps(k: Kernel, k': Kernel)
    requires Inv(k) && k' == Enqueued(k.(ticks := k'.ticks))
    ensures Descheduled(k')
  {
    assert ThreadOk(k, k.cur, true);
    AppendedMembers(k.ready, k.cur);
    forall t | t in k'.status ensures ThreadOk(k', t, false) {
      assert ThreadOk(k, t, true);
    }
    SemasFrame(k, k');
  }

  lemma ExitingKeeps(k: Kernel)
    requires Inv(k) && Enabled(k, AExit)
    ensures Descheduled(Exiting(k))
  {
    var k' := Exiting(k);
    assert ThreadOk(k, k.cur, true);
    forall t | t in k'.status ensures ThreadOk(k', t, false) {
      assert ThreadOk(k, t, true);
    }
    SemasFrame(k, k');
  }

  lemma IdleBlockKeeps(k: Kernel)
    requires Inv(k) && Enabled(k, AIdleBlock)
    ensures Descheduled(Demote(k, Blocked))
  {
    var k' := Demote(k, Blocked);
    assert ThreadOk(k, k.cur, true);
    forall t | t in k'.status ensures ThreadOk(k', t, false) {
      assert ThreadOk(k, t, true);
    }
    SemasFrame(k, k');
  }

  /** Semaphores see only who waits. */
  lemma SemasFrame(k: Kernel, k': Kernel)
    requires Semas(k) && k'.semas == k.semas && k'.wait == k.wait
    ensures Semas(k')
  {
    forall s | s in k'.semas ensures SemaOk(k', s) {
      assert SemaOk(k, s);
      assert WokenFrom(k', s) == WokenFrom(k, s);
    }
  }

  lemma ParkedKeeps(k: Kernel, s: Sid)
    requires Inv(k) && Enabled(k, ADown(s)) && k.semas[s].value == 0
    ensures Descheduled(Demote(Parked(k, s), Blocked))
  {
    var k' := Demote(Parked(k, s), Blocked);
    assert ThreadOk(k, k.cur, true) && SemaOk(k, s);
    AppendedMembers(k.semas[s].waiters, k.cur);
    forall t | t in k'.status ensures ThreadOk(k', t, false) {
      assert ThreadOk(k, t, true);
    }
    forall s' | s' in k'.semas ensures SemaOk(k', s') {
      assert SemaOk(k, s');
      if s' != s { assert WokenFrom(k', s') == WokenFrom(k, s'); }
    }
  }

  lemma DemoteKeeps(k: Kernel, a: Action)
    requires Inv(k) && Enabled(k, a) && BeforeSchedule(k, a).Some?
    ensures Descheduled(BeforeSchedule(k, a).value)
  {
    match a
    case ADown(s) => ParkedKeeps(k, s);
    case AIdleBlock => IdleBlockKeeps(k);
    case AExit => ExitingKeeps(k);
    case AYield => EnqueuedKeeps(k, Enqueued(k));
    case ATick => EnqueuedKeeps(k, Enqueued(k.(ticks := k.ticks + 1)));
  }

  // Actions that do not switch threads.

  lemma DownKeeps(k: Kernel, s: Sid)
    requires Inv(k) && Enabled(k, ADown(s)) && k.semas[s].value > 0
    ensures Inv(Down(k, s))
  {
    var k' := Down(k, s);
    assert ThreadOk(k, k.cur, true);
    DownSemas(k, s);
    forall t | t in k'.status ensures ThreadOk(k', t, true) {
      assert ThreadOk(k, t, true);
    }
  }

  lemma DownSemas(k: Kernel, s: Sid)
    requires Semas(k) && Enabled(k, ADown(s)) && k.semas[s].value > 0 && k.cur in k.status
    ensures Semas(Down(k, s))
  {
    var k' := Down(k, s);
    forall s' | s' in k'.semas ensures SemaOk(k', s') {
      assert SemaOk(k, s');
      assert WokenFrom(k', s') == if s' == s then WokenFrom(k, s) - {k.cur} else WokenFrom(k, s');
    }
  }

  /** sema_up wakes the longest waiter, whose status really is BLOCKED. */
  lemma UpKeeps(k: Kernel, s: Sid)
    requires Inv(k) && s in k.semas
    ensures Inv(Up(k, s))
    ensures k.semas[s].waiters != [] ==>
              k.semas[s].waiters[0] in k.status && k.status[k.semas[s].waiters[0]] == Blocked
  {
    assert SemaOk(k, s);
    UpSemas(k, s);
    if k.semas[s].waiters == [] {
      UpThreadsNoWaiter(k, s);
    } else {
      UpThreadsWaiter(k, s);
    }
  }

  lemma UpThreadsNoWaiter(k: Kernel, s: Sid)
    requires Inv(k) && s in k.semas && k.semas[s].waiters == []
    ensures Lists(Up(k, s), true) && Threads(Up(k, s), true)
  {
    var k' := Up(k, s);
    forall t | t in k'.status ensures ThreadOk(k', t, true) {
      assert ThreadOk(k, t, true);
    }
  }

  lemma UpThreadsWaiter(k: Kernel, s: Sid)
    requires Inv(k) && s in k.semas && k.semas[s].waiters != []
    ensures Lists(Up(k, s), true) && Threads(Up(k, s), true)
    ensures k.semas[s].waiters[0] in k.status && k.status[k.semas[s].waiters[0]] == Blocked
  {
    var k', m, w := Up(k, s), k.semas[s], k.semas[s].waiters[0];
    assert SemaOk(k, s);
    PoppedMembers(m.waiters);
    assert ThreadOk(k, w, true);
    AppendedMembers(k.ready, w);
    forall t | t in k'.status ensures ThreadOk(k', t, true) {
      assert ThreadOk(k, t, true);
    }
  }

  lemma UpSemas(k: Kernel, s: Sid)
    requires Semas(k) && s in k.semas
    ensures Semas(Up(k, s))
  {
    var k', m := Up(k, s), k.semas[s];
    assert SemaOk(k, s);
    WokenAfterUp(k, s);
    PoppedMembers(m.waiters);
    forall s' | s' in k'.semas ensures SemaOk(k', s') {
      assert SemaOk(k, s');
    }
  }

  lemma WokenAfterUp(k: Kernel, s: Sid)
    requires Semas(k) && s in k.semas
    ensures forall s' :: s' != s ==> WokenFrom(Up(k, s), s') == WokenFrom(k, s')
    ensures var q := k.semas[s].waiters;
            |WokenFrom(Up(k, s), s)| == |WokenFrom(k, s)| + if q == [] then 0 else 1
  {
    var k', q := Up(k, s), k.semas[s].waiters;
    assert SemaOk(k, s);
    if q == [] {
      assert WokenFrom(k', s) == WokenFrom(k, s);
    } else {
      assert q[0] in q;
      assert WokenFrom(k', s) == WokenFrom(k, s) + {q[0]};
    }
    forall s' | s' != s ensures WokenFrom(k', s') == WokenFrom(k, s') {
    }
  }

  lemma TryDownKeeps(k: Kernel, s: Sid)
    requires Inv(k) && s in k.semas
    ensures Inv(TryDown(k, s))
  {
    var k' := TryDown(k, s);
    forall t | t in k'.status ensures ThreadOk(k', t, true) {
      assert ThreadOk(k, t, true);
    }
    forall s' | s' in k'.semas ensures SemaOk(k', s') {
      assert SemaOk(k, s');
      assert WokenFrom(k', s') == WokenFrom(k, s');
    }
  }

  lemma InitKeeps(k: Kernel, s: Sid, v: nat)
    requires Inv(k) && s !in k.semas
    ensures Inv(Apply(k, AInit(s, v)).value)
  {
    var k' := Apply(k, AInit(s, v)).value;
    forall t | t in k'.status ensures ThreadOk(k', t, true) {
      assert ThreadOk(k, t, true);
    }
    forall s' | s' in k'.semas ensures SemaOk(k', s') {
      if s' != s {
        assert SemaOk(k, s');
        assert WokenFrom(k', s') == WokenFrom(k, s');
      }
    }
  }

  lemma TickKeeps(k: Kernel)
    requires Inv(k) && k.ticks + 1 < TIME_SLICE
    ensures Inv(k.(ticks := k.ticks + 1))
  {
    var k' := k.(ticks := k.ticks + 1);
    forall t | t in k'.status ensures ThreadOk(k', t, true) {
      assert ThreadOk(k, t, true);
    }
    SemasFrame(k, k');
  }

  lemma SpawnKeeps(k: Kernel, c: Tid)
    requires Inv(k) && Enabled(k, ASpawn(c))
    ensures Inv(Apply(k, ASpawn(c)).value)
  {
    var k' := Apply(k, ASpawn(c)).value;
    forall t | t in k'.status ensures ThreadOk(k', t, true) {
      if t != c { assert ThreadOk(k, t, true); }
    }
    forall s | s in k'.semas ensures SemaOk(k', s) {
      assert SemaOk(k, s);
      assert WokenFrom(k', s) == WokenFrom(k, s);
    }
  }

  lemma StartKeeps(k: Kernel, c: Tid)
    requires Inv(k) && Enabled(k, AStart(c))
    ensures Inv(Apply(k, AStart(c)).value)
  {
    var k' := Apply(k, AStart(c)).value;
    assert ThreadOk(k, c, true);
    AppendedMembers(k.ready, c);
    forall t | t in k'.status ensures ThreadOk(k', t, true) {
      assert ThreadOk(k, t, true);
    }
    SemasFrame(k, k');
  }

  lemma IdleInitKeeps(k: Kernel)
    requires Inv(k) && Enabled(k, AIdleInit)
    ensures Inv(k.(idleUp := true))
  {
    var k' := k.(idleUp := true);
    forall t | t in k'.status ensures ThreadOk(k', t, true) {
      assert ThreadOk(k, t, true);
    }
    SemasFrame(k, k');
  }

  lemma LocalKeeps(k: Kernel, a: Action)
    requires Inv(k) && Enabled(k, a) && BeforeSchedule(k, a) == None
    ensures Apply(k, a).Some? && Inv(Apply(k, a).value)
  {
    match a
    case ADown(s) => DownKeeps(k, s);
    case AUp(s) => UpKeeps(k, s);
    case ATryDown(s) => TryDownKeeps(k, s);
    case ATick => TickKeeps(k);
    case ASpawn(t) => SpawnKeeps(k, t);
    case AStart(t) => StartKeeps(k, t);
    case AIdleInit => IdleInitKeeps(k);
    case AInit(s, v) => InitKeeps(k, s, v);
  }

  /** No action can panic for want of a thread to run, and every action keeps the invariant. */
  lemma ActionKeeps(k: Kernel, a: Action)
    requires Inv(k) && Enabled(k, a)
    ensures Apply(k, a).Some? && Inv(Apply(k, a).value)
  {
    if BeforeSchedule(k, a).Some? {
      DemoteKeeps(k, a);
      ScheduleKeeps(BeforeSchedule(k, a).value);
    } else {
      LocalKeeps(k, a);
    }
  }

  // ------------------------------------------------------------------
  // The effect of an action, seen from the semaphores

  /** The semaphores after an action. */
  function SemasAfter(k: Kernel, a: Action): map<Sid, Sema> {
    match a
    case ADown(s) =>
      if s !in k.semas then k.semas else
      var m := k.semas[s];
      k.semas[s := if m.value == 0 then m.(waiters := m.waiters + [k.cur])
                   else m.(value := m.value - 1, downs := m.downs + 1)]
    case AUp(s) =>
      if s !in k.semas then k.semas else
      var m := k.semas[s];
      k.semas[s := m.(value := m.value + 1, ups := m.ups + 1, waiters := if m.waiters == [] then []
          else m.waiters[1..])]
    case ATryDown(s) =>
      if s !in k.semas || k.semas[s].value == 0 then k.semas else
      var m := k.semas[s];
      k.semas[s := m.(value := m.value - 1, downs := m.downs + 1)]
    case AInit(s, v) => k.semas[s := Sema(v, [], v, 0, 0)]
    case _ => k.semas
  }

  /** What thread t waits for after an action. */
  function WaitAfter(k: Kernel, a: Action, t: Tid): Wait {
    var w := if t in k.wait then k.wait[t] else Awake;
    match a
    case ADown(s) =>
      if t == k.cur && s in k.semas then if k.semas[s].value == 0 then Asleep(s) else Awake else w
    case AUp(s) =>
      if s in k.semas && k.semas[s].waiters != [] && t == k.semas[s].waiters[0] then Woken(s) else w
    case _ => w
  }

  function NewbornAfter(k: Kernel, a: Action): set<Tid> {
    match a
    case ASpawn(t) => k.newborn + {t}
    case AStart(t) => k.newborn - {t}
    case _ => k.newborn
  }

  ghost predicate Effect(k: Kernel, a: Action, k': Kernel) {
    && k'.idler == k.idler && k'.initial == k.initial
    && k'.idleUp == (k.idleUp || a.AIdleInit?)
    && k'.exited == (if a.AExit? then k.exited + {k.cur} else k.exited)
    && k'.newborn == NewbornAfter(k, a)
    && k'.semas == SemasAfter(k, a)
    && (forall t :: t in k'.wait ==> k'.wait[t] == WaitAfter(k, a, t))
    && (forall t :: t in k'.status || t in k'.freed <==> t in k.status || t in k.freed || a == ASpawn(t))
  }

  lemma SwitchEffect(k: Kernel)
    requires k.cur in k.status && NextThreadToRun(k).Some? && NextThreadToRun(k).value in k.status && k.cur in k.wait
    ensures var k' := Schedule(k);
            && k'.idler == k.idler && k'.initial == k.initial && k'.idleUp == k.idleUp
            && k'.exited == k.exited && k'.newborn == k.newborn && k'.semas == k.semas
            && (forall t :: t in k'.wait ==> t in k.wait && k'.wait[t] == k.wait[t])
            && (forall t :: t in k'.status || t in k'.freed <==> t in k.status || t in k.freed)
  {
    AppendedMembers(k.freed, k.cur);
  }

  lemma LocalEffect(k: Kernel, a: Action)
    requires Inv(k) && Enabled(k, a) && !Switches(k, a)
    ensures Apply(k, a).Some? && Effect(k, a, Apply(k, a).value)
  {
    if a.AUp? { UpEffect(k, a.s); }
  }

  lemma UpEffect(k: Kernel, s: Sid)
    requires Inv(k) && s in k.semas
    ensures Effect(k, AUp(s), Up(k, s))
  {
    assert SemaOk(k, s);
    if k.semas[s].waiters != [] {
      assert k.semas[s].waiters[0] in k.semas[s].waiters;
    }
  }

  lemma DemoteEffect(k: Kernel, a: Action)
    requires Inv(k) && Enabled(k, a) && Switches(k, a)
    ensures Effect(k, a, BeforeSchedule(k, a).value)
  {
  }

  lemma ActionEffect(k: Kernel, a: Action)
    requires Inv(k) && Enabled(k, a)
    ensures Apply(k, a).Some? && Effect(k, a, Apply(k, a).value)
  {
    if Switches(k, a) {
      var k1 := BeforeSchedule(k, a).value;
      DemoteKeeps(k, a);
      DemoteEffect(k, a);
      NextIsAlive(k1);
      SwitchEffect(k1);
    } else {
      LocalEffect(k, a);
    }
  }

  /** An action changes what another thread waits for only by waking it from the same semaphore,
      and takes units only from the semaphore it names. */
  lemma EffectOnOthers(k: Kernel, a: Action, k': Kernel)
    requires Inv(k) && Inv(k') && Effect(k, a, k')
    ensures forall t :: t in k'.wait && t != k.cur && k'.wait[t] != Awake ==>
              t in k.wait && k.wait[t] != Awake && k.wait[t].s == k'.wait[t].s
    ensures forall x :: x in k.semas && !a.AInit? ==> x in k'.semas
    ensures forall x :: x in k.semas && a != ADown(x) && a != ATryDown(x) && (a.AInit? ==> a.s != x) ==>
              x in k'.semas && k'.semas[x].downs == k.semas[x].downs
  {
    forall t | t in k'.wait && t != k.cur && k'.wait[t] != Awake
      ensures t in k.wait && k.wait[t] != Awake && k.wait[t].s == k'.wait[t].s
    {
      if a.AUp? && a.s in k.semas && k.semas[a.s].waiters != [] && t == k.semas[a.s].waiters[0] {
        assert SemaOk(k, a.s);
        assert t in k.semas[a.s].waiters;
      }
    }
  }

  // ------------------------------------------------------------------
  // Runs

  /** thread_start just after it has created the idle thread: the caller runs, the idle thread is
      ready, and idle_started is a fresh semaphore. */
  function Boot(main: Tid, idler: Tid): Kernel {
    Kernel(main, map[main := Running, idler := Ready], [idler], idler, false, main, 0,
           map[User(0) := Sema(0, [], 0, 0, 0)], map[main := Awake, idler := Awake], {}, {}, [])
  }

  lemma BootHolds(main: Tid, idler: Tid)
    requires main != idler
    ensures Inv(Boot(main, idler))
  {
    var k := Boot(main, idler);
    forall t | t in k.status ensures ThreadOk(k, t, true) {
    }
    forall s | s in k.semas ensures SemaOk(k, s) {
    }
  }

  /** Every action of the run is enabled when its turn comes. */
  ghost predicate IsRun(k: Kernel, run: seq<Action>)
    decreases |run|
  {
    run != [] ==> Enabled(k, run[0]) && Apply(k, run[0]).Some? && IsRun(Apply(k, run[0]).value, run[1..])
  }

  ghost function After(k: Kernel, run: seq<Action>): Kernel
    requires IsRun(k, run)
    decreases |run|
  {
    if run == [] then k else After(Apply(k, run[0]).value, run[1..])
  }

  /** Every reachable state: from boot, any run at all keeps every property. */
  lemma {:induction false} RunKeeps(k: Kernel, run: seq<Action>)
    requires Inv(k) && IsRun(k, run)
    ensures Inv(After(k, run))
    ensures OneRunning(After(k, run)) && ReadyExact(After(k, run)) && PagesExact(After(k, run))
    ensures WaitListsExclusive(After(k, run)) && BlockedForAReason(After(k, run))
    ensures NoLostWakeup(After(k, run)) && Balanced(After(k, run))
    decreases |run|
  {
    if run == [] {
      InvMeansThreads(k);
      InvMeansWaits(k);
      InvMeansWakeups(k);
    } else {
      ActionKeeps(k, run[0]);
      RunKeeps(Apply(k, run[0]).value, run[1..]);
    }
  }

  // ------------------------------------------------------------------
  // Round robin

  /** How often schedule() runs in the run, and how many timer ticks are delivered. */
  ghost function Schedules(k: Kernel, run: seq<Action>): nat
    requires IsRun(k, run)
    decreases |run|
  {
    if run == [] then 0
    else (if Switches(k, run[0]) then 1 else 0) + Schedules(Apply(k, run[0]).value, run[1..])
  }

  ghost function Ticks(run: seq<Action>): nat {
    if run == [] then 0 else (if run[0].ATick? then 1 else 0) + Ticks(run[1..])
  }

  /** Without a switch nobody overtakes; with one, everybody moves up by one and the front runs. */
  lemma QueueStep(k: Kernel, a: Action, i: nat)
    requires Inv(k) && Enabled(k, a) && Apply(k, a).Some? && i < |k.ready|
    ensures var k' := Apply(k, a).value;
            if Switches(k, a) then
              if i == 0 then k'.cur == k.ready[0] else i - 1 < |k'.ready| && k'.ready[i - 1] == k.ready[i]
            else
              i < |k'.ready| && k'.ready[i] == k.ready[i]
  {
    if Switches(k, a) {
      var k1 := BeforeSchedule(k, a).value;
      JoinsAtEnd(k, a);
      FrontRuns(k1, i);
    } else {
      QueueStays(k, a);
    }
  }

  /** Before a switch the current thread can only have joined ready_list at its end. */
  lemma JoinsAtEnd(k: Kernel, a: Action)
    requires Enabled(k, a) && Switches(k, a)
    ensures k.ready <= BeforeSchedule(k, a).value.ready
  {
  }

  lemma FrontRuns(k: Kernel, i: nat)
    requires k.cur in k.status && NextThreadToRun(k).Some? && i < |k.ready|
    ensures var k' := Schedule(k);
            if i == 0 then k'.cur == k.ready[0] else i - 1 < |k'.ready| && k'.ready[i - 1] == k.ready[i]
  {
  }

  lemma QueueStays(k: Kernel, a: Action)
    requires Enabled(k, a) && Apply(k, a).Some? && !Switches(k, a)
    ensures k.ready <= Apply(k, a).value.ready
  {
  }

  /** The thread at index i of ready_list has moved up by one for each schedule() so far ... */
  lemma {:induction false} MovesUp(k: Kernel, run: seq<Action>, i: nat)
    requires Inv(k) && IsRun(k, run) && i < |k.ready| && Schedules(k, run) <= i
    ensures var k' := After(k, run); var j := i - Schedules(k, run);
            j < |k'.ready| && k'.ready[j] == k.ready[i]
    decreases |run|
  {
    if run != [] {
      var k1 := Apply(k, run[0]).value;
      ActionKeeps(k, run[0]);
      QueueStep(k, run[0], i);
      var j := if Switches(k, run[0]) then i - 1 else i;
      MovesUp(k1, run[1..], j);
      assert After(k, run) == After(k1, run[1..]) && i - Schedules(k, run) == j - Schedules(k1, run[1..]);
    }
  }

  /** ... so it is dispatched at exactly the (i+1)-th schedule(). */
  lemma DispatchedOnTime(k: Kernel, run: seq<Action>, a: Action, i: nat)
    requires Inv(k) && IsRun(k, run) && i < |k.ready| && Schedules(k, run) == i
    requires Enabled(After(k, run), a) && Switches(After(k, run), a)
    ensures Apply(After(k, run), a).Some? && Apply(After(k, run), a).value.cur == k.ready[i]
  {
    MovesUp(k, run, i);
    RunKeeps(k, run);
    ActionKeeps(After(k, run), a);
    QueueStep(After(k, run), a, 0);
  }

  lemma {:induction false} TicksForceSchedules(k: Kernel, run: seq<Action>)
    requires Inv(k) && IsRun(k, run)
    ensures Ticks(run) + k.ticks <= TIME_SLICE * Schedules(k, run) + After(k, run).ticks
    ensures After(k, run).ticks < TIME_SLICE
    decreases |run|
  {
    if run != [] {
      ActionKeeps(k, run[0]);
      TickStep(k, run[0]);
      TicksForceSchedules(Apply(k, run[0]).value, run[1..]);
    }
  }

  lemma TickStep(k: Kernel, a: Action)
    requires Inv(k) && Enabled(k, a) && Apply(k, a).Some?
    ensures Apply(k, a).value.ticks
            == if Switches(k, a) then 0 else if a.ATick? then k.ticks + 1 else k.ticks
  {
  }

  /** A run with more than i schedules dispatches the thread at index i on the way. */
  lemma {:induction false} Dispatched(k: Kernel, run: seq<Action>, i: nat) returns (n: nat)
    requires Inv(k) && IsRun(k, run) && i < |k.ready| && Schedules(k, run) > i
    ensures n <= |run| && IsRun(k, run[..n]) && Schedules(k, run[..n]) == i + 1 && After(k, run[..n]).cur == k.ready[i]
    decreases |run|
  {
    var k1 := Apply(k, run[0]).value;
    ActionKeeps(k, run[0]);
    QueueStep(k, run[0], i);
    if Switches(k, run[0]) && i == 0 {
      n := 1;
      assert run[..1][1..] == [];
    } else {
      var m := Dispatched(k1, run[1..], if Switches(k, run[0]) then i - 1 else i);
      n := m + 1;
      assert run[..n][0] == run[0] && run[..n][1..] == run[1..][..m];
    }
  }

  /** However the others run, (i + 1) * TIME_SLICE ticks are enough for the thread at index i to have
      been dispatched. */
  lemma WaitIsBounded(k: Kernel, run: seq<Action>, i: nat) returns (n: nat)
    requires Inv(k) && IsRun(k, run) && i < |k.ready|
    requires Ticks(run) >= (i + 1) * TIME_SLICE
    ensures n <= |run| && IsRun(k, run[..n]) && After(k, run[..n]).cur == k.ready[i]
  {
    TicksForceSchedules(k, run);
    n := Dispatched(k, run, i);
  }

  // ------------------------------------------------------------------
  // Semaphores wake threads in the order in which they joined the wait list

  ghost function Ups(run: seq<Action>, x: Sid): nat {
    if run == [] then 0 else (if run[0] == AUp(x) then 1 else 0) + Ups(run[1..], x)
  }

  /** sema_up takes the front waiter; nothing else takes anybody, and newcomers go to the back. */
  lemma WaitersStep(k: Kernel, a: Action, k': Kernel, x: Sid, i: nat)
    requires Inv(k) && Enabled(k, a) && Apply(k, a) == Some(k') && x in k.semas && i < |k.semas[x].waiters|
    ensures var q := k.semas[x].waiters;
            && x in k'.semas
            && if a == AUp(x) then
                 if i == 0 then q[0] in k'.wait && k'.wait[q[0]] == Woken(x)
                 else i - 1 < |k'.semas[x].waiters| && k'.semas[x].waiters[i - 1] == q[i]
               else i < |k'.semas[x].waiters| && k'.semas[x].waiters[i] == q[i]
  {
    ActionEffect(k, a);
    assert SemaOk(k, x);
    if a == AUp(x) { assert k.semas[x].waiters[0] in k.semas[x].waiters; }
  }

  lemma {:induction false} WaitersMoveUp(k: Kernel, run: seq<Action>, x: Sid, i: nat)
    requires Inv(k) && IsRun(k, run) && x in k.semas && i < |k.semas[x].waiters| && Ups(run, x) <= i
    ensures var k' := After(k, run); var j := i - Ups(run, x);
            x in k'.semas && j < |k'.semas[x].waiters| && k'.semas[x].waiters[j] == k.semas[x].waiters[i]
    decreases |run|
  {
    if run != [] {
      var j := WaiterNext(k, run[0], x, i);
      var k1 := Apply(k, run[0]).value;
      WaitersMoveUp(k1, run[1..], x, j);
      assert After(k, run) == After(k1, run[1..]) && i - Ups(run, x) == j - Ups(run[1..], x);
    }
  }

  lemma WaiterNext(k: Kernel, a: Action, x: Sid, i: nat) returns (j: nat)
    requires Inv(k) && Enabled(k, a) && Apply(k, a).Some? && x in k.semas && i < |k.semas[x].waiters|
    requires a == AUp(x) ==> i > 0
    ensures j == if a == AUp(x) then i - 1 else i
    ensures var k' := Apply(k, a).value;
            && Inv(k') && x in k'.semas && j < |k'.semas[x].waiters|
            && k'.semas[x].waiters[j] == k.semas[x].waiters[i]
  {
    j := if a == AUp(x) then i - 1 else i;
    ActionKeeps(k, a);
    WaitersStep(k, a, Apply(k, a).value, x, i);
  }

  /** The thread at index i of a wait list is woken by exactly the (i+1)-th sema_up. */
  lemma WokenInOrder(k: Kernel, run: seq<Action>, x: Sid, i: nat)
    requires Inv(k) && IsRun(k, run) && x in k.semas && i < |k.semas[x].waiters| && Ups(run, x) == i
    ensures var k' := After(k, run); var t := k.semas[x].waiters[i];
            && x in k'.semas && t in k'.wait && k'.wait[t] == Asleep(x)
            && Apply(k', AUp(x)).Some? && t in Apply(k', AUp(x)).value.wait
            && Apply(k', AUp(x)).value.wait[t] == Woken(x)
  {
    WaitersMoveUp(k, run, x, i);
    RunKeeps(k, run);
    var k' := After(k, run);
    assert SemaOk(k', x) && k'.semas[x].waiters[0] in k'.semas[x].waiters;
    ActionKeeps(k', AUp(x));
    WaitersStep(k', AUp(x), Apply(k', AUp(x)).value, x, 0);
  }
}
