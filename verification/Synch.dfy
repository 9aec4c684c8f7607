/** Locks and Mesa-style condition variables on top of the semaphores, for any number of threads
    interleaved at every point where interrupts are on. */
module Synch {
  import opened Basics
  import opened Scheduler

  /** Where a thread is inside the synchronization functions. */
  datatype Pc =
    | Code                                  // in its own code
    | InDown(n: nat)                        // sema_down on the caller's semaphore n
    | Acquiring(l: nat)                     // lock_acquire: in sema_down
    | Acquired(l: nat)                      // lock_acquire: sema_down done, holder not yet stored
    | Releasing(l: nat, next: AfterRelease) // lock_release: holder cleared, sema_up still to come
    | Queued(c: nat, w: nat)                // cond_wait: waiter w queued, lock still held
    | Sleeping(c: nat, w: nat)              // cond_wait: in sema_down on waiter w
    | Signalling(c: nat, w: nat, more: bool) // cond_signal: waiter w dequeued, sema_up still to come
    | Broadcasting(c: nat)                  // at the top of cond_broadcast's loop
    | Starting(child: Tid)                  // thread_create: thread_unblock still to come
    | IdleFirst | IdleAnnounce | IdleLoop   // idle()
    | Gone                                  // exited
  datatype AfterRelease = Return | ThenSleep(c: nat, w: nat)

  /** A condition variable, with the order in which its waiters joined and were signalled. */
  datatype Cond = Cond(lock: nat, queue: seq<nat>, joined: seq<nat>, signalled: seq<nat>)

  /** A waiter of a condition variable: still queued, dequeued by a signaller, or signalled. */
  datatype Phase = Waiting | Popped(signaller: Tid) | Signalled

  datatype Record = Record(thread: Tid, cond: nat, phase: Phase)

  datatype State = State(
    k: Kernel,
    pc: map<Tid, Pc>,
    holder: map<nat, Option<Tid>>,   // lock->holder
    owner: map<nat, Option<Tid>>,    // history: between a finished sema_down and the matching sema_up
    conds: map<nat, Cond>,
    made: nat,                       // waiters are numbered in the order they are made
    recs: map<nat, Record>)          // history: whose waiter w is, of what, and how far it has got

  datatype Event =
    | Go                     // the current thread takes its next atomic step
    | Tick
    | Interrupt(n: nat)      // an interrupt handler calls sema_up
    | CallDown(n: nat) | CallTryDown(n: nat) | CallUp(n: nat)
    | CallAcquire(l: nat) | CallTryAcquire(l: nat) | CallRelease(l: nat)
    | CallWait(c: nat) | CallSignal(c: nat) | CallBroadcast(c: nat)
    | CallCreate(t: Tid) | CallYield | CallExit
    | NewSema(n: nat, v: nat) | NewLock(l: nat) | NewCond(c: nat, l: nat)

  /** The semaphore a thread inside sema_down is waiting for. */
  function Target(pc: Pc): Option<Sid> {
    match pc
    case InDown(n) => Some(User(n))
    case Acquiring(l) => Some(LockSema(l))
    case Sleeping(c, w) => Some(Waiter(w))
    case _ => None
  }

  predicate Holds(s: State, l: nat) { l in s.holder && s.holder[l] == Some(s.k.cur) }

  predicate HoldsFor(s: State, c: nat) { c in s.conds && Holds(s, s.conds[c].lock) }

  /** What the source's assertions demand of the caller. */
  predicate Allowed(s: State, e: Event) {
    && s.k.cur in s.pc
    && (if e.Go? then s.pc[s.k.cur] != Code && s.pc[s.k.cur] != Gone
        else e.Tick? || e.Interrupt? || s.pc[s.k.cur] == Code)
    && match e
       case Interrupt(n) => User(n) in s.k.semas
       case CallDown(n) => User(n) in s.k.semas
       case CallTryDown(n) => User(n) in s.k.semas
       case CallUp(n) => User(n) in s.k.semas
       case CallAcquire(l) => l in s.holder && !Holds(s, l)
       case CallTryAcquire(l) => l in s.holder && !Holds(s, l)
       case CallRelease(l) => Holds(s, l)
       case CallWait(c) => HoldsFor(s, c)
       case CallSignal(c) => HoldsFor(s, c)
       case CallBroadcast(c) => HoldsFor(s, c)
       case CallCreate(t) => t !in s.pc
       case NewSema(n, v) => User(n) !in s.k.semas
       case NewLock(l) => l !in s.holder
       case NewCond(c, l) => c !in s.conds && l in s.holder
       case _ => true
  }

  /** The scheduler or semaphore action an event performs, if any. */
  function ActionOf(s: State, e: Event): Option<Action>
    requires s.k.cur in s.pc
  {
    match e
    case Tick => Some(ATick)
    case Interrupt(n) => Some(AUp(User(n)))
    case CallTryDown(n) => Some(ATryDown(User(n)))
    case CallUp(n) => Some(AUp(User(n)))
    case CallTryAcquire(l) => Some(ATryDown(LockSema(l)))
    case CallWait(c) => Some(AInit(Waiter(s.made), 0))
    case CallCreate(t) => Some(ASpawn(t))
    case CallYield => Some(AYield)
    case CallExit => Some(AExit)
    case NewSema(n, v) => Some(AInit(User(n), v))
    case NewLock(l) => Some(AInit(LockSema(l), 1))
    case Go => GoAction(s.pc[s.k.cur])
    case _ => None
  }

  function GoAction(pc: Pc): Option<Action> {
    match pc
    case InDown(n) => Some(ADown(User(n)))
    case Acquiring(l) => Some(ADown(LockSema(l)))
    case Releasing(l, next) => Some(AUp(LockSema(l)))
    case Sleeping(c, w) => Some(ADown(Waiter(w)))
    case Signalling(c, w, more) => Some(AUp(Waiter(w)))
    case Starting(t) => Some(AStart(t))
    case IdleFirst => Some(AIdleInit)
    case IdleAnnounce => Some(AUp(User(0)))
    case IdleLoop => Some(AIdleBlock)
    case _ => None
  }

  predicate Available(k: Kernel, s: Sid) { s in k.semas && k.semas[s].value > 0 }

  /** cond_signal's list_pop_front. */
  function Dequeue(s: State, c: nat, more: bool): State
    requires c in s.conds && s.conds[c].queue != []
  {
    var d := s.conds[c];
    var w := d.queue[0];
    s.(conds := s.conds[c := d.(queue := d.queue[1..], signalled := d.signalled + [w])],
       pc := s.pc[s.k.cur := Signalling(c, w, more)],
       recs := if w in s.recs then s.recs[w := s.recs[w].(phase := Popped(s.k.cur))] else s.recs)
  }

  /** Everything an event does apart from its action on the kernel. */
  function Local(s: State, e: Event): State
    requires Allowed(s, e)
  {
    var t := s.k.cur;
    match e
    case CallDown(n) => s.(pc := s.pc[t := InDown(n)])
    case CallAcquire(l) => s.(pc := s.pc[t := Acquiring(l)])
    case CallTryAcquire(l) =>
      if Available(s.k, LockSema(l)) then s.(pc := s.pc[t := Acquired(l)], owner := s.owner[l := Some(t)]) else s
    case CallRelease(l) => s.(pc := s.pc[t := Releasing(l, Return)], holder := s.holder[l := None])
    case CallWait(c) =>
      var d, w := s.conds[c], s.made;
      s.(pc := s.pc[t := Queued(c, w)], made := w + 1,
         conds := s.conds[c := d.(queue := d.queue + [w], joined := d.joined + [w])],
         recs := s.recs[w := Record(t, c, Waiting)])
    case CallSignal(c) => if s.conds[c].queue == [] then s else Dequeue(s, c, false)
    case CallBroadcast(c) => s.(pc := s.pc[t := Broadcasting(c)])
    case CallCreate(u) => s.(pc := s.pc[u := Code][t := Starting(u)])
    case CallExit => s.(pc := s.pc[t := Gone])
    case NewLock(l) => s.(holder := s.holder[l := None], owner := s.owner[l := None])
    case NewCond(c, l) => s.(conds := s.conds[c := Cond(l, [], [], [])])
    case Go => LocalGo(s)
    case _ => s
  }

  function LocalGo(s: State): State
    requires s.k.cur in s.pc
  {
    var t := s.k.cur;
    match s.pc[t]
    case InDown(n) => if Available(s.k, User(n)) then s.(pc := s.pc[t := Code]) else s
    case Acquiring(l) =>
      if Available(s.k, LockSema(l)) then s.(pc := s.pc[t := Acquired(l)], owner := s.owner[l := Some(t)]) else s
    case Acquired(l) => s.(pc := s.pc[t := Code], holder := s.holder[l := Some(t)])
    case Releasing(l, next) =>
      s.(pc := s.pc[t := if next == Return then Code else Sleeping(next.c, next.w)], owner := s.owner[l := None])
    case Queued(c, w) =>
      if c !in s.conds then s else
      var l := s.conds[c].lock;
      s.(pc := s.pc[t := Releasing(l, ThenSleep(c, w))], holder := s.holder[l := None])
    case Sleeping(c, w) =>
      if c in s.conds && Available(s.k, Waiter(w)) then s.(pc := s.pc[t := Acquiring(s.conds[c].lock)]) else s
    case Signalling(c, w, more) =>
      s.(pc := s.pc[t := if more then Broadcasting(c) else Code],
         recs := if w in s.recs then s.recs[w := s.recs[w].(phase := Signalled)] else s.recs)
    case Broadcasting(c) =>
      if c in s.conds && s.conds[c].queue != [] then Dequeue(s, c, true) else s.(pc := s.pc[t := Code])
    case Starting(u) => s.(pc := s.pc[t := Code])
    case IdleFirst => s.(pc := s.pc[t := IdleAnnounce])
    case IdleAnnounce => s.(pc := s.pc[t := IdleLoop])
    case _ => s
  }

  /** The kernel after an event; None would be a kernel panic. */
  function KernelAfter(s: State, e: Event): Option<Kernel>
    requires Allowed(s, e)
  {
    match ActionOf(s, e)
    case None => Some(s.k)
    case Some(a) => Apply(s.k, a)
  }

  function Step(s: State, e: Event): State
    requires Allowed(s, e) && KernelAfter(s, e).Some?
  {
    Local(s, e).(k := KernelAfter(s, e).value)
  }

  // ------------------------------------------------------------------
  // The invariant

  /** t has finished sema_down on l's semaphore and not yet called the matching sema_up. */
  ghost predicate Inside(s: State, t: Tid, l: nat) {
    && t in s.pc && l in s.holder
    && (s.holder[l] == Some(t) || s.pc[t] == Acquired(l) || (s.pc[t].Releasing? && s.pc[t].l == l))
  }

  ghost predicate HolderIs(s: State, c: nat, t: Tid) {
    c in s.conds && s.conds[c].lock in s.holder && s.holder[s.conds[c].lock] == Some(t)
  }

  /** t is the thread of waiter w, which it has not yet got past. */
  ghost predicate WaitsAs(s: State, c: nat, w: nat, t: Tid) {
    && c in s.conds && w < s.made && w in s.recs && s.recs[w].thread == t && s.recs[w].cond == c
    && Waiter(w) in s.k.semas && s.k.semas[Waiter(w)].downs == 0
  }

  /** The part of PcOk that does not depend on where the thread is. */
  ghost predicate PcBase(s: State, t: Tid)
    requires t in s.pc
  {
    && (s.pc[t] == Gone <==> t in s.k.exited)
    && (t in s.k.wait && s.k.wait[t] != Awake ==> Target(s.pc[t]) == Some(s.k.wait[t].s))
    && (s.pc[t].IdleFirst? || s.pc[t].IdleAnnounce? || s.pc[t].IdleLoop? <==> t == s.k.idler)
    && (s.pc[t].IdleFirst? <==> t == s.k.idler && !s.k.idleUp)
    && (t in s.k.newborn ==> s.pc[t] == Code)
  }

  ghost predicate PcPlace(s: State, t: Tid)
    requires t in s.pc
  {
    match s.pc[t]
    case InDown(n) => User(n) in s.k.semas
    case Acquiring(l) => l in s.holder && s.holder[l] != Some(t)
    case Acquired(l) => l in s.holder && s.holder[l] == None
    case Releasing(l, next) => l in s.holder && s.holder[l] == None
         && (next.ThenSleep? ==> WaitsAs(s, next.c, next.w, t) && s.conds[next.c].lock == l)
    case Queued(c, w) => WaitsAs(s, c, w, t) && HolderIs(s, c, t)
    case Sleeping(c, w) => WaitsAs(s, c, w, t) && s.conds[c].lock in s.holder && s.holder[s.conds[c].lock] != Some(t)
    case Signalling(c, w, more) => HolderIs(s, c, t) && w < s.made && w in s.recs && s.recs[w].phase == Popped(t)
    case Broadcasting(c) => HolderIs(s, c, t)
    case Starting(u) => u in s.k.newborn
    case _ => true
  }

  ghost predicate PcOk(s: State, t: Tid)
    requires t in s.pc
  {
    PcBase(s, t) && PcPlace(s, t)
  }

  /** Mutual exclusion: the semaphore's value and the one thread inside add up to one. */
  ghost predicate LockOk(s: State, l: nat)
    requires l in s.holder
  {
    && l in s.owner && LockSema(l) in s.k.semas
    && s.k.semas[LockSema(l)].value == (if s.owner[l] == None then 1 else 0)
    && (s.holder[l].Some? ==> s.owner[l] == s.holder[l])
    && (s.owner[l].Some? ==> Inside(s, s.owner[l].value, l))
    && forall t: Tid {:trigger Inside(s, t, l)} :: Inside(s, t, l) ==> s.owner[l] == Some(t)
  }

  /** Signals leave in the order in which the waiters joined. */
  ghost predicate CondOk(s: State, c: nat)
    requires c in s.conds
  {
    var d := s.conds[c];
    && d.lock in s.holder && d.joined == d.signalled + d.queue && NoDup(d.joined)
    && (forall w :: w in d.joined ==> w < s.made)
    && (forall w: nat :: w in d.queue ==> w in s.recs && s.recs[w].phase == Waiting && s.recs[w].cond == c)
  }

  ghost predicate WaiterOk(s: State, w: nat)
    requires w < s.made
  {
    && w in s.recs && Waiter(w) in s.k.semas
    && var m, r := s.k.semas[Waiter(w)], s.recs[w];
       && m.initial == 0
       && m.ups == (if r.phase == Signalled then 1 else 0)
       && (forall t :: t in m.waiters ==> t == r.thread && r.phase != Signalled)
       && (r.phase.Waiting? ==> r.cond in s.conds && w in s.conds[r.cond].queue)
       && (r.phase.Popped? ==> var u := r.phase.signaller; u in s.pc && s.pc[u].Signalling? && s.pc[u].w == w)
  }

  ghost predicate Pcs(s: State) {
    && s.pc.Keys == s.k.status.Keys + (set t | t in s.k.freed)
    && forall t {:trigger PcOk(s, t)} :: t in s.pc ==> PcOk(s, t)
  }
  ghost predicate Locks(s: State) { forall l {:trigger LockOk(s, l)} :: l in s.holder ==> LockOk(s, l) }
  ghost predicate Conds(s: State) { forall c {:trigger CondOk(s, c)} :: c in s.conds ==> CondOk(s, c) }
  ghost predicate Waiters(s: State) {
    && (forall w: nat {:trigger WaiterOk(s, w)} :: w < s.made ==> WaiterOk(s, w))
    && (forall w: nat :: Waiter(w) in s.k.semas ==> w < s.made)
    && (forall w :: w in s.recs ==> w < s.made)
  }

  /** No two threads are about to start the same child. */
  ghost predicate Starters(s: State) {
    forall t, u :: t in s.pc && u in s.pc && s.pc[t].Starting? && s.pc[t] == s.pc[u] ==> t == u
  }

  ghost predicate SyncInv(s: State) {
    && Inv(s.k) && Pcs(s) && Locks(s) && Conds(s) && Waiters(s) && Starters(s)
    && User(0) in s.k.semas
    && (forall l :: LockSema(l) in s.k.semas ==> l in s.holder)
  }

  // ------------------------------------------------------------------
  // Every event finds its kernel action enabled.

  lemma ActionAllowed(s: State, e: Event)
    requires SyncInv(s) && Allowed(s, e) && ActionOf(s, e).Some?
    ensures Enabled(s.k, ActionOf(s, e).value)
  {
    assert PcOk(s, s.k.cur) && ThreadOk(s.k, s.k.cur, true);
    if e.Go? { GoAllowed(s); } else { CallAllowed(s, e); }
  }

  lemma CallAllowed(s: State, e: Event)
    requires Locks(s) && Allowed(s, e) && !e.Go? && ActionOf(s, e).Some?
    requires PcBase(s, s.k.cur) && s.k.cur in s.k.status && ThreadOk(s.k, s.k.cur, true)
    requires s.pc.Keys == s.k.status.Keys + (set t | t in s.k.freed)
    requires forall w: nat :: Waiter(w) in s.k.semas ==> w < s.made
    requires forall l :: LockSema(l) in s.k.semas ==> l in s.holder
    ensures Enabled(s.k, ActionOf(s, e).value)
  {
    if e.CallTryAcquire? { assert LockOk(s, e.l); }
  }

  lemma GoAllowed(s: State)
    requires Locks(s) && Waiters(s) && User(0) in s.k.semas && Allowed(s, Go) && GoAction(s.pc[s.k.cur]).Some?
    requires PcOk(s, s.k.cur) && s.k.cur in s.k.status && ThreadOk(s.k, s.k.cur, true)
    ensures Enabled(s.k, GoAction(s.pc[s.k.cur]).value)
  {
    match s.pc[s.k.cur]
    case Acquiring(l) => assert LockOk(s, l);
    case Releasing(l, next) => assert LockOk(s, l);
    case Signalling(c, w, more) => assert WaiterOk(s, w);
    case _ =>
  }

  /** How the kernel changes, in the terms the locks and condition variables need. */
  ghost predicate KernelStep(s: State, e: Event, k': Kernel)
    requires Allowed(s, e)
  {
    match ActionOf(s, e)
    case None => k' == s.k
    case Some(a) => Effect(s.k, a, k')
  }

  lemma KernelHolds(s: State, e: Event)
    requires SyncInv(s) && Allowed(s, e)
    ensures KernelAfter(s, e).Some? && Inv(KernelAfter(s, e).value) && KernelStep(s, e, KernelAfter(s, e).value)
  {
    if ActionOf(s, e).Some? {
      ActionAllowed(s, e);
      ActionKeeps(s.k, ActionOf(s, e).value);
      ActionEffect(s.k, ActionOf(s, e).value);
    }
  }

  // ------------------------------------------------------------------
  // What an event of the current thread leaves alone.

  ghost predicate HolderFrame(s: State, s': State)
    requires s.k.cur in s.pc
  {
    var me := s.k.cur;
    forall l :: l in s.holder ==>
      && l in s'.holder
      && (|| s'.holder[l] == s.holder[l]
          || (s.holder[l] == Some(me) && s'.holder[l] == None)
          || (s.pc[me] == Acquired(l) && s'.holder[l] == Some(me)))
  }

  ghost predicate RecordFrame(s: State, s': State) {
    var me := s.k.cur;
    && s.made <= s'.made
    && (forall c :: c in s.conds ==> c in s'.conds && s'.conds[c].lock == s.conds[c].lock)
    && (forall w :: w in s.recs ==>
          && w in s'.recs && s'.recs[w].thread == s.recs[w].thread && s'.recs[w].cond == s.recs[w].cond
          && (|| s'.recs[w].phase == s.recs[w].phase
              || (s.recs[w].phase.Waiting? && s'.recs[w].phase == Popped(me))
              || (s.recs[w].phase == Popped(me) && s'.recs[w].phase == Signalled)))
  }

  ghost predicate PcFrame(s: State, s': State)
    requires s.k.cur in s.pc
  {
    && (forall t :: t in s.pc && t != s.k.cur ==> t in s'.pc && s'.pc[t] == s.pc[t])
    && s.k.cur in s'.pc
    && (forall t :: t in s'.pc && t !in s.pc ==> s'.pc[t] == Code && s'.pc[s.k.cur] == Starting(t))
  }

  ghost predicate LifeFrame(s: State, e: Event, k': Kernel)
    requires s.k.cur in s.pc
  {
    var me, k := s.k.cur, s.k;
    && k'.exited == (if e.CallExit? then k.exited + {me} else k.exited)
    && k'.idler == k.idler && (k'.idleUp == k.idleUp || me == k.idler)
    && (forall t :: t in k.newborn ==> t in k'.newborn || (e.Go? && s.pc[me] == Starting(t)))
    && (forall t :: t in k'.newborn ==> t in k.newborn || e == CallCreate(t))
  }

  ghost predicate SemaFrame(s: State, k': Kernel)
    requires s.k.cur in s.pc
  {
    var me, k := s.k.cur, s.k;
    && (forall t :: t in k'.wait && t != me && k'.wait[t] != Awake ==>
          t in k.wait && k.wait[t] != Awake && k.wait[t].s == k'.wait[t].s)
    && (forall x :: x in k.semas ==> x in k'.semas)
    && (forall w: nat :: Waiter(w) in k.semas && s.pc[me] != Sleeping(RecordOf(s, w).cond, w) ==>
          k'.semas[Waiter(w)].downs == k.semas[Waiter(w)].downs)
  }

  ghost function RecordOf(s: State, w: nat): Record {
    if w in s.recs then s.recs[w] else Record(0, 0, Signalled)
  }

  ghost predicate Frame(s: State, e: Event, s': State)
    requires s.k.cur in s.pc
  {
    && HolderFrame(s, s') && RecordFrame(s, s') && PcFrame(s, s')
    && LifeFrame(s, e, s'.k) && SemaFrame(s, s'.k)
  }

  lemma LocalHolder(s: State, e: Event)
    requires Allowed(s, e) && PcOk(s, s.k.cur)
    ensures HolderFrame(s, Local(s, e))
  {
  }

  /** Where the current thread is after its event. */
  function NextPc(s: State, e: Event): Pc
    requires Allowed(s, e)
  {
    match e
    case CallDown(n) => InDown(n)
    case CallAcquire(l) => Acquiring(l)
    case CallTryAcquire(l) => if Available(s.k, LockSema(l)) then Acquired(l) else Code
    case CallRelease(l) => Releasing(l, Return)
    case CallWait(c) => Queued(c, s.made)
    case CallSignal(c) => if s.conds[c].queue == [] then Code else Signalling(c, s.conds[c].queue[0], false)
    case CallBroadcast(c) => Broadcasting(c)
    case CallCreate(t) => Starting(t)
    case CallExit => Gone
    case Go => NextPcGo(s)
    case _ => s.pc[s.k.cur]
  }

  function NextPcGo(s: State): Pc
    requires s.k.cur in s.pc
  {
    var pc := s.pc[s.k.cur];
    match pc
    case InDown(n) => if Available(s.k, User(n)) then Code else pc
    case Acquiring(l) => if Available(s.k, LockSema(l)) then Acquired(l) else pc
    case Releasing(l, next) => if next == Return then Code else Sleeping(next.c, next.w)
    case Queued(c, w) => if c in s.conds then Releasing(s.conds[c].lock, ThenSleep(c, w)) else pc
    case Sleeping(c, w) => if c in s.conds && Available(s.k, Waiter(w)) then Acquiring(s.conds[c].lock) else pc
    case Signalling(c, w, more) => if more then Broadcasting(c) else Code
    case Broadcasting(c) =>
      if c in s.conds && s.conds[c].queue != [] then Signalling(c, s.conds[c].queue[0], true) else Code
    case IdleFirst => IdleAnnounce
    case IdleAnnounce => IdleLoop
    case IdleLoop => IdleLoop
    case Gone => Gone
    case _ => Code
  }

  lemma PcAfter(s: State, e: Event)
    requires Allowed(s, e)
    ensures Local(s, e).pc == (if e.CallCreate? then s.pc[e.t := Code] else s.pc)[s.k.cur := NextPc(s, e)]
  {
    if e.Go? { PcAfterGo(s); }
  }

  lemma PcAfterGo(s: State)
    requires s.k.cur in s.pc
    ensures LocalGo(s).pc == s.pc[s.k.cur := NextPcGo(s)]
  {
    assert s.pc == s.pc[s.k.cur := s.pc[s.k.cur]];
  }

  lemma LocalPc(s: State, e: Event)
    requires Allowed(s, e)
    ensures PcFrame(s, Local(s, e))
    ensures Local(s, e).pc.Keys == s.pc.Keys + (if e.CallCreate? then {e.t} else {})
  {
    PcAfter(s, e);
  }

  lemma LocalRecord(s: State, e: Event)
    requires Allowed(s, e) && PcPlace(s, s.k.cur) && s.made !in s.recs
    requires forall c :: c in s.conds && s.conds[c].queue != [] ==> FrontWaits(s, c)
    ensures RecordFrame(s, Local(s, e))
  {
    if e.Go? { LocalRecordGo(s); }
  }

  lemma LocalRecordGo(s: State)
    requires Allowed(s, Go) && PcPlace(s, s.k.cur)
    requires forall c :: c in s.conds && s.conds[c].queue != [] ==> FrontWaits(s, c)
    ensures RecordFrame(s, Local(s, Go))
  {
  }

  ghost predicate FrontWaits(s: State, c: nat)
    requires c in s.conds && s.conds[c].queue != []
  {
    var w := s.conds[c].queue[0];
    w in s.recs && s.recs[w].cond == c && s.recs[w].phase == Waiting && w < s.made
  }

  lemma FrontsWait(s: State)
    requires Conds(s)
    ensures forall c :: c in s.conds && s.conds[c].queue != [] ==> FrontWaits(s, c)
  {
    forall c | c in s.conds && s.conds[c].queue != [] ensures FrontWaits(s, c) {
      assert CondOk(s, c);
      var d := s.conds[c];
      assert d.queue[0] in d.queue;
      assert d.joined[|d.signalled|] == d.queue[0];
      assert d.queue[0] in d.joined;
    }
  }

  lemma EffectLife(s: State, e: Event)
    requires Allowed(s, e) && PcOk(s, s.k.cur)
    requires KernelAfter(s, e).Some? && KernelStep(s, e, KernelAfter(s, e).value)
    ensures LifeFrame(s, e, KernelAfter(s, e).value)
  {
  }

  lemma EffectSemas(s: State, e: Event)
    requires Allowed(s, e) && PcOk(s, s.k.cur) && Inv(s.k)
    requires KernelAfter(s, e).Some? && KernelStep(s, e, KernelAfter(s, e).value) && Inv(KernelAfter(s, e).value)
    requires ActionOf(s, e).Some? ==> Enabled(s.k, ActionOf(s, e).value)
    ensures SemaFrame(s, KernelAfter(s, e).value)
  {
    if ActionOf(s, e).Some? {
      var a, k' := ActionOf(s, e).value, KernelAfter(s, e).value;
      EffectOnOthers(s.k, a, k');
      OwnUnitsOnly(s, e);
    }
  }

  /** Units of a waiter's semaphore are taken only by its own thread, and no semaphore is made twice. */
  lemma OwnUnitsOnly(s: State, e: Event)
    requires Allowed(s, e) && PcPlace(s, s.k.cur) && ActionOf(s, e).Some? && Enabled(s.k, ActionOf(s, e).value)
    ensures var a := ActionOf(s, e).value;
            && (a.AInit? ==> a.s !in s.k.semas)
            && forall w: nat :: a == ADown(Waiter(w)) || a == ATryDown(Waiter(w)) ==>
                 s.pc[s.k.cur] == Sleeping(RecordOf(s, w).cond, w)
  {
  }

  lemma StepFrame(s: State, e: Event)
    requires SyncInv(s) && Allowed(s, e)
    ensures KernelAfter(s, e).Some? && Inv(Step(s, e).k) && KernelStep(s, e, Step(s, e).k)
    ensures Frame(s, e, Step(s, e))
  {
    KernelHolds(s, e);
    if ActionOf(s, e).Some? { ActionAllowed(s, e); }
    assert PcOk(s, s.k.cur);
    LocalFrame(s, e);
    EffectLife(s, e);
    EffectSemas(s, e);
  }

  lemma LocalFrame(s: State, e: Event)
    requires Allowed(s, e) && PcOk(s, s.k.cur) && Conds(s) && s.made !in s.recs
    ensures HolderFrame(s, Local(s, e)) && RecordFrame(s, Local(s, e)) && PcFrame(s, Local(s, e))
  {
    FrontsWait(s);
    LocalHolder(s, e);
    LocalPc(s, e);
    LocalRecord(s, e);
  }

  /** Two threads cannot both be between a finished sema_down and the matching sema_up. */
  lemma OneInside(s: State, t: Tid, u: Tid, l: nat)
    requires Locks(s) && Inside(s, t, l) && Inside(s, u, l)
    ensures t == u
  {
    assert LockOk(s, l);
  }

  /** No event disturbs what holds of a thread that is not running. */
  lemma OtherPc(s: State, e: Event, s': State, t: Tid)
    requires Pcs(s) && Locks(s) && Starters(s) && Allowed(s, e) && Frame(s, e, s') && t in s.pc && t != s.k.cur
    ensures t in s'.pc && PcOk(s', t)
  {
    assert PcOk(s, t) && PcOk(s, s.k.cur);
    OtherBase(s, e, s', t);
    OtherPlace(s, e, s', t);
  }

  lemma OtherBase(s: State, e: Event, s': State, t: Tid)
    requires Allowed(s, e) && PcFrame(s, s') && LifeFrame(s, e, s'.k) && SemaFrame(s, s'.k) && t in s.pc && t != s.k.cur
    requires PcBase(s, t) && PcBase(s, s.k.cur)
    ensures t in s'.pc && PcBase(s', t)
  {
  }

  lemma OtherPlace(s: State, e: Event, s': State, t: Tid)
    requires Locks(s) && Starters(s) && Allowed(s, e) && t in s.pc && t != s.k.cur && Frame(s, e, s')
    requires PcPlace(s, t) && PcOk(s, s.k.cur)
    ensures t in s'.pc && PcPlace(s', t)
  {
    match s.pc[t]
    case Acquired(l) => OtherInside(s, s', t, l);
    case Releasing(l, next) =>
      OtherInside(s, s', t, l);
      if next.ThenSleep? { OtherWaits(s, s', next.c, next.w, t); }
    case Queued(c, w) =>
      OtherInside(s, s', t, s.conds[c].lock);
      OtherWaits(s, s', c, w, t);
    case Sleeping(c, w) => OtherWaits(s, s', c, w, t);
    case Signalling(c, w, more) => OtherInside(s, s', t, s.conds[c].lock);
    case Broadcasting(c) => OtherInside(s, s', t, s.conds[c].lock);
    case Starting(u) => assert s.pc[s.k.cur] != Starting(u);
    case _ =>
  }

  lemma OtherInside(s: State, s': State, t: Tid, l: nat)
    requires Locks(s) && s.k.cur in s.pc && HolderFrame(s, s') && t != s.k.cur && Inside(s, t, l)
    ensures s'.holder[l] == s.holder[l]
  {
    if s.pc[s.k.cur] == Acquired(l) || s.holder[l] == Some(s.k.cur) {
      OneInside(s, t, s.k.cur, l);
    }
  }

  lemma OtherWaits(s: State, s': State, c: nat, w: nat, t: Tid)
    requires s.k.cur in s.pc && PcOk(s, s.k.cur) && t != s.k.cur
    requires RecordFrame(s, s') && SemaFrame(s, s'.k) && WaitsAs(s, c, w, t)
    ensures WaitsAs(s', c, w, t)
  {
  }

  /** What the current thread waits for after its own event is what its place in the code says. */
  lemma MyWait(s: State, e: Event, k': Kernel)
    requires Inv(s.k) && Allowed(s, e) && PcBase(s, s.k.cur) && KernelStep(s, e, k')
    requires s.k.cur in k'.wait && k'.wait[s.k.cur] != Awake
    ensures Target(NextPc(s, e)) == Some(k'.wait[s.k.cur].s)
  {
    RunnerIsAwake(s.k);
    if ActionOf(s, e).Some? && ActionOf(s, e).value.AUp? && ActionOf(s, e).value.s in s.k.semas {
      RunnerNotQueued(s.k, ActionOf(s, e).value.s);
    }
    MyWaitAfter(s, e, k');
  }

  lemma RunnerIsAwake(k: Kernel)
    requires Inv(k)
    ensures k.cur in k.wait && !k.wait[k.cur].Asleep?
  {
    assert ThreadOk(k, k.cur, true);
  }

  lemma RunnerNotQueued(k: Kernel, x: Sid)
    requires Inv(k) && x in k.semas
    ensures k.semas[x].waiters != [] ==> k.semas[x].waiters[0] != k.cur
  {
    assert ThreadOk(k, k.cur, true) && SemaOk(k, x);
    assert k.semas[x].waiters != [] ==> k.semas[x].waiters[0] in k.semas[x].waiters;
  }

  lemma MyWaitAfter(s: State, e: Event, k': Kernel)
    requires Allowed(s, e) && PcBase(s, s.k.cur) && KernelStep(s, e, k')
    requires s.k.cur in s.k.wait && s.k.cur in k'.wait && k'.wait[s.k.cur] != Awake && !s.k.wait[s.k.cur].Asleep?
    requires ActionOf(s, e).Some? && ActionOf(s, e).value.AUp? ==> k'.wait[s.k.cur] == s.k.wait[s.k.cur]
    ensures Target(NextPc(s, e)) == Some(k'.wait[s.k.cur].s)
  {
    if e.Go? { MyWaitGo(s, k'); }
  }

  lemma MyWaitGo(s: State, k': Kernel)
    requires Allowed(s, Go) && PcBase(s, s.k.cur) && KernelStep(s, Go, k')
    requires s.k.cur in s.k.wait && s.k.cur in k'.wait && k'.wait[s.k.cur] != Awake && !s.k.wait[s.k.cur].Asleep?
    requires ActionOf(s, Go).Some? && ActionOf(s, Go).value.AUp? ==> k'.wait[s.k.cur] == s.k.wait[s.k.cur]
    ensures Target(NextPcGo(s)) == Some(k'.wait[s.k.cur].s)
  {
  }

  predicate IdlePc(pc: Pc) { pc.IdleFirst? || pc.IdleAnnounce? || pc.IdleLoop? }

  lemma MyKind(s: State, e: Event)
    requires Allowed(s, e) && (e.CallExit? ==> !IdlePc(s.pc[s.k.cur]))
    ensures var p, p' := s.pc[s.k.cur], NextPc(s, e);
            && (p' == Gone <==> p == Gone || e.CallExit?)
            && (IdlePc(p') <==> IdlePc(p))
            && (p'.IdleFirst? <==> p.IdleFirst? && !e.Go?)
  {
  }

  lemma MyBase(s: State, e: Event, s': State)
    requires Allowed(s, e) && PcBase(s, s.k.cur) && LifeFrame(s, e, s'.k) && s.k.cur !in s.k.newborn
    requires s'.k.idleUp == (s.k.idleUp || (e.Go? && s.pc[s.k.cur] == IdleFirst))
    requires s.k.cur in s'.pc && s'.pc[s.k.cur] == NextPc(s, e)
    requires s.k.cur in s'.k.wait && s'.k.wait[s.k.cur] != Awake ==>
             Target(s'.pc[s.k.cur]) == Some(s'.k.wait[s.k.cur].s)
    ensures PcBase(s', s.k.cur)
  {
    MyKind(s, e);
  }

  lemma MyPlaceCall(s: State, e: Event, k': Kernel)
    requires Locks(s) && Conds(s) && Allowed(s, e) && KernelStep(s, e, k') && s.k.cur in Local(s, e).pc
    requires !e.Go? && !e.Tick? && !e.Interrupt?
    ensures PcPlace(Local(s, e).(k := k'), s.k.cur)
  {
    if e.CallTryAcquire? {
      assert LockOk(s, e.l);
      PlaceTry(s, e.l, k');
    } else if e.CallWait? {
      PlaceWait(s, e.c, k');
    } else if e.CallSignal? {
      FrontsWait(s);
      PlaceSignal(s, e.c, k');
    } else {
      PlaceSimple(s, e, k');
    }
  }

  lemma PlaceTry(s: State, l: nat, k': Kernel)
    requires Allowed(s, CallTryAcquire(l)) && LockOk(s, l)
    ensures PcPlace(Local(s, CallTryAcquire(l)).(k := k'), s.k.cur)
  {
  }

  lemma PlaceSignal(s: State, c: nat, k': Kernel)
    requires Allowed(s, CallSignal(c)) && (s.conds[c].queue != [] ==> FrontWaits(s, c))
    ensures PcPlace(Local(s, CallSignal(c)).(k := k'), s.k.cur)
  {
  }

  lemma PlaceWait(s: State, c: nat, k': Kernel)
    requires Allowed(s, CallWait(c)) && KernelStep(s, CallWait(c), k')
    ensures PcPlace(Local(s, CallWait(c)).(k := k'), s.k.cur)
  {
  }

  lemma PlaceSimple(s: State, e: Event, k': Kernel)
    requires Allowed(s, e) && KernelStep(s, e, k') && s.pc[s.k.cur] == Code && s.k.cur in Local(s, e).pc
    requires !e.Go? && !e.CallTryAcquire? && !e.CallWait? && !e.CallSignal?
    ensures PcPlace(Local(s, e).(k := k'), s.k.cur)
  {
  }

  lemma MyPlaceIdle(s: State, e: Event, k': Kernel)
    requires Allowed(s, e) && PcPlace(s, s.k.cur) && KernelStep(s, e, k') && (e.Tick? || e.Interrupt?)
    ensures PcPlace(s.(k := k'), s.k.cur)
  {
    NonWaiterUnits(s, e, k');
  }

  /** Ticks and interrupts leave the waiters and the semaphores there are. */
  lemma NonWaiterUnits(s: State, e: Event, k': Kernel)
    requires Allowed(s, e) && KernelStep(s, e, k') && (e.Tick? || e.Interrupt?)
    ensures k'.newborn == s.k.newborn
    ensures forall x :: x in s.k.semas ==> x in k'.semas
    ensures forall w: nat :: Waiter(w) in s.k.semas ==> k'.semas[Waiter(w)].downs == s.k.semas[Waiter(w)].downs
  {
  }

  lemma MyPlaceGo(s: State, k': Kernel)
    requires Locks(s) && Conds(s) && Allowed(s, Go) && PcPlace(s, s.k.cur) && KernelStep(s, Go, k')
    ensures s.k.cur in LocalGo(s).pc && PcPlace(LocalGo(s).(k := k'), s.k.cur)
  {
    match s.pc[s.k.cur]
    case Acquiring(l) =>
      assert LockOk(s, l);
      PlaceAcquire(s, l, k');
    case Broadcasting(c) =>
      FrontsWait(s);
      PlaceBroadcast(s, c, k');
    case Releasing(l, next) => PlaceRelease(s, k');
    case Sleeping(c, w) => PlaceSleep(s, c, w, k');
    case Queued(c, w) => PlaceQueued(s, c, w, k');
    case InDown(n) => PlaceDown(s, n, k');
    case _ => PlaceGoSimple(s, k');
  }

  lemma PlaceDown(s: State, n: nat, k': Kernel)
    requires Allowed(s, Go) && s.pc[s.k.cur] == InDown(n) && PcPlace(s, s.k.cur) && Effect(s.k, ADown(User(n)), k')
    ensures s.k.cur in LocalGo(s).pc && PcPlace(LocalGo(s).(k := k'), s.k.cur)
  {
  }

  lemma PlaceAcquire(s: State, l: nat, k': Kernel)
    requires Allowed(s, Go) && s.pc[s.k.cur] == Acquiring(l) && PcPlace(s, s.k.cur) && LockOk(s, l)
    ensures s.k.cur in LocalGo(s).pc && PcPlace(LocalGo(s).(k := k'), s.k.cur)
  {
  }

  lemma PlaceBroadcast(s: State, c: nat, k': Kernel)
    requires Allowed(s, Go) && s.pc[s.k.cur] == Broadcasting(c) && PcPlace(s, s.k.cur)
    requires s.conds[c].queue != [] ==> FrontWaits(s, c)
    ensures s.k.cur in LocalGo(s).pc && PcPlace(LocalGo(s).(k := k'), s.k.cur)
  {
  }

  lemma PlaceRelease(s: State, k': Kernel)
    requires Allowed(s, Go) && s.pc[s.k.cur].Releasing? && PcPlace(s, s.k.cur)
    requires Effect(s.k, AUp(LockSema(s.pc[s.k.cur].l)), k')
    ensures s.k.cur in LocalGo(s).pc && PcPlace(LocalGo(s).(k := k'), s.k.cur)
  {
  }

  lemma PlaceSleep(s: State, c: nat, w: nat, k': Kernel)
    requires Allowed(s, Go) && s.pc[s.k.cur] == Sleeping(c, w) && PcPlace(s, s.k.cur)
    requires Effect(s.k, ADown(Waiter(w)), k')
    ensures s.k.cur in LocalGo(s).pc && PcPlace(LocalGo(s).(k := k'), s.k.cur)
  {
  }

  lemma PlaceQueued(s: State, c: nat, w: nat, k': Kernel)
    requires Allowed(s, Go) && s.pc[s.k.cur] == Queued(c, w) && PcPlace(s, s.k.cur) && k' == s.k
    ensures s.k.cur in LocalGo(s).pc && PcPlace(LocalGo(s).(k := k'), s.k.cur)
  {
  }

  lemma PlaceGoSimple(s: State, k': Kernel)
    requires Allowed(s, Go) && PcPlace(s, s.k.cur)
    requires var p := s.pc[s.k.cur];
             p.Acquired? || p.Signalling? || p.Starting? || p.IdleFirst? || p.IdleAnnounce? || p.IdleLoop?
    ensures s.k.cur in LocalGo(s).pc && PcPlace(LocalGo(s).(k := k'), s.k.cur)
  {
  }

  lemma MyPc(s: State, e: Event)
    requires SyncInv(s) && Allowed(s, e) && KernelAfter(s, e).Some? && KernelStep(s, e, Step(s, e).k)
    requires Frame(s, e, Step(s, e))
    ensures PcOk(Step(s, e), s.k.cur)
  {
    var k' := KernelAfter(s, e).value;
    assert PcOk(s, s.k.cur) && ThreadOk(s.k, s.k.cur, true);
    PcAfter(s, e);
    MyNewBase(s, e, k');
    MyNewPlace(s, e, k');
  }

  lemma MyNewBase(s: State, e: Event, k': Kernel)
    requires Inv(s.k) && Allowed(s, e) && PcBase(s, s.k.cur) && KernelStep(s, e, k') && LifeFrame(s, e, k')
    requires s.k.cur !in s.k.newborn && s.k.cur in Local(s, e).pc && Local(s, e).pc[s.k.cur] == NextPc(s, e)
    ensures PcBase(Local(s, e).(k := k'), s.k.cur)
  {
    if s.k.cur in k'.wait && k'.wait[s.k.cur] != Awake { MyWait(s, e, k'); }
    MyBase(s, e, Local(s, e).(k := k'));
  }

  lemma MyNewPlace(s: State, e: Event, k': Kernel)
    requires Locks(s) && Conds(s) && Allowed(s, e) && PcPlace(s, s.k.cur) && KernelStep(s, e, k')
    requires s.k.cur in Local(s, e).pc
    ensures PcPlace(Local(s, e).(k := k'), s.k.cur)
  {
    if e.Go? {
      MyPlaceGo(s, k');
    } else if e.Tick? || e.Interrupt? {
      MyPlaceIdle(s, e, k');
    } else {
      MyPlaceCall(s, e, k');
    }
  }

  lemma StepPcs(s: State, e: Event)
    requires SyncInv(s) && Allowed(s, e) && KernelAfter(s, e).Some? && KernelStep(s, e, Step(s, e).k)
    requires Frame(s, e, Step(s, e))
    ensures Pcs(Step(s, e))
  {
    var s', me := Step(s, e), s.k.cur;
    PcKeys(s, e);
    forall t | t in s'.pc ensures PcOk(s', t) {
      if t == me {
        MyPc(s, e);
      } else if t in s.pc {
        OtherPc(s, e, s', t);
      } else {
        BornPc(s, e, t);
      }
    }
  }

  lemma PcKeys(s: State, e: Event)
    requires Allowed(s, e) && KernelAfter(s, e).Some? && KernelStep(s, e, KernelAfter(s, e).value)
    requires s.pc.Keys == s.k.status.Keys + (set t | t in s.k.freed)
    ensures var k' := KernelAfter(s, e).value; Local(s, e).pc.Keys == k'.status.Keys + (set t | t in k'.freed)
  {
    var k' := KernelAfter(s, e).value;
    LocalPc(s, e);
    LiveKeys(s, e, k');
  }

  lemma LiveKeys(s: State, e: Event, k': Kernel)
    requires Allowed(s, e) && KernelStep(s, e, k')
    ensures k'.status.Keys + (set t | t in k'.freed)
            == s.k.status.Keys + (set t | t in s.k.freed) + (if e.CallCreate? then {e.t} else {})
  {
    forall t ensures (t in k'.status || t in k'.freed) <==> (t in s.k.status || t in s.k.freed || e == CallCreate(t)) {
    }
  }

  lemma BornPc(s: State, e: Event, t: Tid)
    requires SyncInv(s) && Allowed(s, e) && KernelAfter(s, e).Some? && KernelStep(s, e, Step(s, e).k)
    requires t in Step(s, e).pc && t !in s.pc
    ensures PcOk(Step(s, e), t)
  {
    LocalPc(s, e);
    assert e == CallCreate(t);
    assert PcOk(s, s.k.cur) && t != s.k.cur;
    assert t !in s.k.status && t !in s.k.freed && t !in s.k.wait;
    Born(s, t, KernelAfter(s, e).value);
  }

  lemma Born(s: State, t: Tid, k': Kernel)
    requires Lists(s.k, true) && Allowed(s, CallCreate(t)) && Effect(s.k, ASpawn(t), k')
    requires t !in s.k.status && t !in s.k.freed && t !in s.k.wait && t != s.k.cur
    ensures PcOk(Local(s, CallCreate(t)).(k := k'), t)
  {
  }

  // ------------------------------------------------------------------
  // Mutual exclusion

  ghost predicate Takes(s: State, e: Event, l: nat)
    requires s.k.cur in s.pc
  {
    && Available(s.k, LockSema(l))
    && (e == CallTryAcquire(l) || (e.Go? && s.pc[s.k.cur] == Acquiring(l)))
  }

  ghost predicate GivesBack(s: State, e: Event, l: nat)
    requires s.k.cur in s.pc
  {
    e.Go? && s.pc[s.k.cur].Releasing? && s.pc[s.k.cur].l == l
  }

  lemma LockValueAfter(s: State, e: Event, l: nat, k': Kernel)
    requires Allowed(s, e) && KernelStep(s, e, k') && LockSema(l) in s.k.semas && l in s.holder
    ensures LockSema(l) in k'.semas
    ensures var v := s.k.semas[LockSema(l)].value;
            k'.semas[LockSema(l)].value == if Takes(s, e, l) then v - 1 else if GivesBack(s, e, l) then v + 1 else v
  {
    if e.Go? { LockValueGo(s, l, k'); }
  }

  lemma LockValueGo(s: State, l: nat, k': Kernel)
    requires Allowed(s, Go) && KernelStep(s, Go, k') && LockSema(l) in s.k.semas
    ensures LockSema(l) in k'.semas
    ensures var v := s.k.semas[LockSema(l)].value;
            k'.semas[LockSema(l)].value == if Takes(s, Go, l) then v - 1 else if GivesBack(s, Go, l) then v + 1 else v
  {
  }

  lemma OwnerAfter(s: State, e: Event, l: nat)
    requires Allowed(s, e) && l in s.owner && l in s.holder
    ensures l in Local(s, e).owner
    ensures Local(s, e).owner[l]
            == if Takes(s, e, l) then Some(s.k.cur) else if GivesBack(s, e, l) then None else s.owner[l]
  {
    if e.Go? { OwnerAfterGo(s, l); }
  }

  lemma OwnerAfterGo(s: State, l: nat)
    requires s.k.cur in s.pc && l in s.owner
    ensures l in LocalGo(s).owner
    ensures LocalGo(s).owner[l]
            == if Takes(s, Go, l) then Some(s.k.cur) else if GivesBack(s, Go, l) then None else s.owner[l]
  {
  }

  /** The thread inside is the owner, after any event of the current thread. */
  lemma MyInside(s: State, e: Event, l: nat)
    requires Allowed(s, e) && PcPlace(s, s.k.cur) && l in s.holder && LockOk(s, l)
    ensures Inside(Local(s, e), s.k.cur, l) <==>
              (Takes(s, e, l) || (Inside(s, s.k.cur, l) && !GivesBack(s, e, l)))
  {
    if e.Go? { MyInsideGo(s, l); }
  }

  lemma MyInsideGo(s: State, l: nat)
    requires Allowed(s, Go) && PcPlace(s, s.k.cur) && l in s.holder && LockOk(s, l)
    ensures Inside(Local(s, Go), s.k.cur, l) <==>
              (Takes(s, Go, l) || (Inside(s, s.k.cur, l) && !GivesBack(s, Go, l)))
  {
  }

  lemma OthersInside(s: State, e: Event, s': State, l: nat, t: Tid)
    requires s.k.cur in s.pc && HolderFrame(s, s') && PcFrame(s, s') && l in s.holder && t != s.k.cur
    requires LockOk(s, l)
    ensures Inside(s', t, l) <==> Inside(s, t, l)
  {
    if s.pc[s.k.cur] == Acquired(l) { assert Inside(s, s.k.cur, l); }
    if Inside(s, t, l) { assert s.owner[l] == Some(t); }
    if s.holder[l] == Some(t) { assert Inside(s, s.owner[l].value, l); }
  }

  lemma LockStep(s: State, e: Event, l: nat)
    requires Pcs(s) && Locks(s) && Allowed(s, e) && KernelAfter(s, e).Some? && KernelStep(s, e, Step(s, e).k)
    requires Frame(s, e, Step(s, e)) && l in s.holder
    ensures l in Step(s, e).holder && LockOk(Step(s, e), l)
  {
    assert LockOk(s, l) && PcPlace(s, s.k.cur) by { assert PcOk(s, s.k.cur); }
    LockValueAfter(s, e, l, KernelAfter(s, e).value);
    OwnerAfter(s, e, l);
    MyInside(s, e, l);
    LockAfter(s, e, Step(s, e), l);
  }

  lemma LockAfter(s: State, e: Event, s': State, l: nat)
    requires Allowed(s, e) && l in s.holder && LockOk(s, l) && HolderFrame(s, s') && PcFrame(s, s')
             && PcPlace(s, s.k.cur)
    requires LockSema(l) in s'.k.semas && l in s'.owner
    requires var v := s.k.semas[LockSema(l)].value;
             s'.k.semas[LockSema(l)].value == if Takes(s, e, l) then v - 1 else if GivesBack(s, e, l) then v + 1 else v
    requires s'.owner[l] == if Takes(s, e, l) then Some(s.k.cur) else if GivesBack(s, e, l) then None else s.owner[l]
    requires Inside(s', s.k.cur, l) <==> (Takes(s, e, l) || (Inside(s, s.k.cur, l) && !GivesBack(s, e, l)))
    ensures LockOk(s', l)
  {
    var me := s.k.cur;
    forall t ensures t != me ==> (Inside(s', t, l) <==> Inside(s, t, l)) {
      if t != me { OthersInside(s, e, s', l, t); }
    }
    if GivesBack(s, e, l) { assert Inside(s, me, l); }
    if s'.holder[l].Some? { assert s'.holder[l].value in s'.pc; }
  }

  lemma StepLocks(s: State, e: Event)
    requires SyncInv(s) && Allowed(s, e) && KernelAfter(s, e).Some? && KernelStep(s, e, Step(s, e).k)
    requires Frame(s, e, Step(s, e))
    ensures Locks(Step(s, e))
  {
    var s' := Step(s, e);
    forall l | l in s'.holder ensures LockOk(s', l) {
      if l in s.holder { LockStep(s, e, l); } else { NewLockOk(s, e, l); }
    }
  }

  lemma HolderKeys(s: State, e: Event)
    requires Allowed(s, e) && PcPlace(s, s.k.cur)
    ensures Local(s, e).holder.Keys == s.holder.Keys + if e.NewLock? then {e.l} else {}
  {
    if e.Go? { HolderKeysGo(s); }
  }

  lemma HolderKeysGo(s: State)
    requires s.k.cur in s.pc && PcPlace(s, s.k.cur)
    ensures LocalGo(s).holder.Keys == s.holder.Keys
  {
  }

  lemma NewLockOk(s: State, e: Event, l: nat)
    requires SyncInv(s) && Allowed(s, e) && KernelAfter(s, e).Some? && KernelStep(s, e, Step(s, e).k)
    requires l in Step(s, e).holder && l !in s.holder
    ensures LockOk(Step(s, e), l)
  {
    assert PcPlace(s, s.k.cur) by { assert PcOk(s, s.k.cur); }
    HolderKeys(s, e);
    MadeLockOk(s, l, KernelAfter(s, e).value);
  }

  lemma MadeLockOk(s: State, l: nat, k': Kernel)
    requires Pcs(s) && Allowed(s, NewLock(l)) && Effect(s.k, AInit(LockSema(l), 1), k')
    ensures LockOk(Local(s, NewLock(l)).(k := k'), l)
  {
    var s' := Local(s, NewLock(l)).(k := k');
    forall t ensures !Inside(s', t, l) {
      if t in s.pc { assert PcOk(s, t); }
    }
  }

  // ------------------------------------------------------------------
  // Condition variables

  /** Which waiter an event takes off c's queue, if any. */
  ghost predicate Pops(s: State, e: Event, c: nat)
    requires s.k.cur in s.pc
  {
    && c in s.conds && s.conds[c].queue != []
    && (e == CallSignal(c) || (e.Go? && s.pc[s.k.cur] == Broadcasting(c)))
  }

  lemma CondAfter(s: State, e: Event, c: nat)
    requires Allowed(s, e) && c in s.conds
    ensures c in Local(s, e).conds
    ensures var d, d' := s.conds[c], Local(s, e).conds[c];
            d' == if e == CallWait(c) then d.(queue := d.queue + [s.made], joined := d.joined + [s.made])
                  else if Pops(s, e, c) then d.(queue := d.queue[1..], signalled := d.signalled + [d.queue[0]])
                  else d
  {
    if e.Go? { CondAfterGo(s, c); }
  }

  lemma CondAfterGo(s: State, c: nat)
    requires s.k.cur in s.pc && c in s.conds
    ensures c in LocalGo(s).conds
    ensures var d, d' := s.conds[c], LocalGo(s).conds[c];
            d' == if Pops(s, Go, c) then d.(queue := d.queue[1..], signalled := d.signalled + [d.queue[0]]) else d
  {
  }

  /** The phase of a waiter changes only when it is popped or signalled. */
  lemma PhaseAfter(s: State, e: Event, w: nat)
    requires Allowed(s, e) && w in s.recs && w < s.made
    ensures w in Local(s, e).recs
    ensures Local(s, e).recs[w]
            == if (exists c :: Pops(s, e, c) && s.conds[c].queue[0] == w) then s.recs[w].(phase := Popped(s.k.cur))
               else if e.Go? && s.pc[s.k.cur].Signalling? && s.pc[s.k.cur].w == w then s.recs[w].(phase := Signalled)
               else s.recs[w]
  {
    if e.CallSignal? && s.conds[e.c].queue != [] { assert Pops(s, e, e.c); }
    if e.Go? && s.pc[s.k.cur].Broadcasting? {
      var c := s.pc[s.k.cur].c;
      if c in s.conds && s.conds[c].queue != [] { assert Pops(s, e, c); }
    }
  }

  lemma CondStep(s: State, e: Event, c: nat)
    requires SyncInv(s) && Allowed(s, e) && c in s.conds
    requires HolderFrame(s, Local(s, e)) && s.made <= Local(s, e).made
    ensures c in Local(s, e).conds && CondOk(Local(s, e), c)
  {
    var s', d := Local(s, e), s.conds[c];
    assert CondOk(s, c);
    CondAfter(s, e, c);
    var d' := s'.conds[c];
    QueueOrder(d, s.made);
    forall w | w in d'.queue ensures w in s'.recs && s'.recs[w].phase == Waiting && s'.recs[w].cond == c {
      if e == CallWait(c) && w == s.made {
      } else {
        assert w in d.queue && w in d.joined;
        QueuedStays(s, e, c, w);
      }
    }
  }

  /** Joining at the back and leaving from the front keep the order of the history. */
  lemma QueueOrder(d: Cond, w: nat)
    requires d.joined == d.signalled + d.queue && NoDup(d.joined) && forall v :: v in d.joined ==> v < w
    ensures d.joined + [w] == d.signalled + (d.queue + [w]) && NoDup(d.joined + [w])
    ensures forall v :: v in d.joined + [w] ==> v < w + 1
    ensures d.queue != [] ==> d.joined == (d.signalled + [d.queue[0]]) + d.queue[1..]
    ensures forall v :: v in d.queue ==> v in d.joined
    ensures d.queue != [] ==> d.queue[0] !in d.queue[1..]
    ensures forall v :: v in d.queue + [w] ==> v in d.queue || v == w
  {
    var n := |d.signalled|;
    AppendedMembers(d.joined, w);
    forall i | 0 <= i < |d.queue| ensures d.joined[n + i] == d.queue[i] {
    }
    assert NoDup(d.queue);
    PoppedMembers(d.queue);
  }

  lemma QueuedStays(s: State, e: Event, c: nat, w: nat)
    requires SyncInv(s) && Allowed(s, e) && c in s.conds && w in s.conds[c].queue
    requires Pops(s, e, c) ==> w != s.conds[c].queue[0]
    ensures w in Local(s, e).recs && w in s.recs && Local(s, e).recs[w] == s.recs[w]
  {
    assert CondOk(s, c) && PcOk(s, s.k.cur);
    PhaseAfter(s, e, w);
    forall c' | Pops(s, e, c') && c' != c ensures s.conds[c'].queue[0] != w {
      assert CondOk(s, c') && s.conds[c'].queue[0] in s.conds[c'].queue;
    }
  }

  lemma CondKeys(s: State, e: Event)
    requires Allowed(s, e) && PcPlace(s, s.k.cur)
    ensures Local(s, e).conds.Keys == s.conds.Keys + if e.NewCond? then {e.c} else {}
  {
    if e.Go? { CondKeysGo(s); }
  }

  lemma CondKeysGo(s: State)
    requires s.k.cur in s.pc
    ensures LocalGo(s).conds.Keys == s.conds.Keys
  {
  }

  lemma NewCondOk(s: State, e: Event, c: nat)
    requires Pcs(s) && Allowed(s, e) && c in Local(s, e).conds && c !in s.conds
    ensures CondOk(Local(s, e), c)
  {
    assert PcPlace(s, s.k.cur) by { assert PcOk(s, s.k.cur); }
    CondKeys(s, e);
  }

  lemma StepConds(s: State, e: Event)
    requires SyncInv(s) && Allowed(s, e) && KernelAfter(s, e).Some? && Frame(s, e, Step(s, e))
    ensures Conds(Step(s, e))
  {
    var s' := Step(s, e);
    forall c | c in s'.conds ensures CondOk(s', c) {
      if c in s.conds { CondStep(s, e, c); } else { NewCondOk(s, e, c); }
      assert CondOk(Local(s, e), c);
    }
  }

  // ------------------------------------------------------------------
  // Waiters

  ghost predicate Downs(s: State, e: Event, w: nat)
    requires s.k.cur in s.pc
  {
    e.Go? && s.pc[s.k.cur].Sleeping? && s.pc[s.k.cur].w == w
  }

  ghost predicate Signals(s: State, e: Event, w: nat)
    requires s.k.cur in s.pc
  {
    e.Go? && s.pc[s.k.cur].Signalling? && s.pc[s.k.cur].w == w
  }

  /** Only a waiter's own thread and its signaller touch its semaphore. */
  lemma WaiterSemaAfter(s: State, e: Event, w: nat, k': Kernel)
    requires Allowed(s, e) && KernelStep(s, e, k') && Waiter(w) in s.k.semas && w < s.made
    ensures Waiter(w) in k'.semas
    ensures var m, m' := s.k.semas[Waiter(w)], k'.semas[Waiter(w)];
            m' == if Downs(s, e, w) then
                    if m.value == 0 then m.(waiters := m.waiters + [s.k.cur])
                    else m.(value := m.value - 1, downs := m.downs + 1)
                  else if Signals(s, e, w) then
                    m.(value := m.value + 1, ups := m.ups + 1, waiters := if m.waiters == [] then []
                        else m.waiters[1..])
                  else m
  {
  }

  lemma WaiterSemaOk(s: State, e: Event, w: nat, k': Kernel)
    requires SyncInv(s) && Allowed(s, e) && KernelStep(s, e, k') && w < s.made
    ensures WaiterOk(s, w) && Waiter(w) in k'.semas
    ensures var m', r := k'.semas[Waiter(w)], s.recs[w];
            && m'.initial == 0
            && m'.ups == (if r.phase == Signalled || Signals(s, e, w) then 1 else 0)
            && forall t :: t in m'.waiters ==> t == r.thread && r.phase != Signalled && !Signals(s, e, w)
  {
    var me, m := s.k.cur, s.k.semas[Waiter(w)];
    assert WaiterOk(s, w) && PcOk(s, me) && SemaOk(s.k, Waiter(w));
    WaiterSemaAfter(s, e, w, k');
    PoppedMembers(m.waiters);
  }

  lemma WaiterPhaseOk(s: State, e: Event, w: nat)
    requires Conds(s) && Allowed(s, e) && PcPlace(s, s.k.cur) && PcFrame(s, Local(s, e))
    requires w < s.made && WaiterOk(s, w)
    ensures var s' := Local(s, e);
            && w in s'.recs && s'.recs[w].thread == s.recs[w].thread
            && var r := s'.recs[w];
               && (r.phase == Signalled <==> s.recs[w].phase == Signalled || Signals(s, e, w))
               && (r.phase.Waiting? ==> r.cond in s'.conds && w in s'.conds[r.cond].queue)
               && (r.phase.Popped? ==>
                     var u := r.phase.signaller;
                     u in s'.pc && s'.pc[u].Signalling? && s'.pc[u].w == w)
  {
    PhaseAfter(s, e, w);
    if c :| Pops(s, e, c) && s.conds[c].queue[0] == w {
      assert CondOk(s, c) && w in s.conds[c].queue;
      PopperSignals(s, e, c);
    } else if Signals(s, e, w) {
    } else if s.recs[w].phase.Waiting? {
      StillQueued(s, e, w);
    } else if s.recs[w].phase == Popped(s.k.cur) {
      assert !e.Go? && s.pc[s.k.cur] != Code;
    }
  }

  lemma PopperSignals(s: State, e: Event, c: nat)
    requires Allowed(s, e) && Pops(s, e, c)
    ensures Local(s, e).pc[s.k.cur].Signalling? && Local(s, e).pc[s.k.cur].w == s.conds[c].queue[0]
  {
  }

  lemma StillQueued(s: State, e: Event, w: nat)
    requires Allowed(s, e) && w in s.recs && s.recs[w].cond in s.conds
    requires var d := s.conds[s.recs[w].cond]; w in d.queue && (Pops(s, e, s.recs[w].cond) ==> w != d.queue[0])
    ensures s.recs[w].cond in Local(s, e).conds && w in Local(s, e).conds[s.recs[w].cond].queue
  {
    var c := s.recs[w].cond;
    var q := s.conds[c].queue;
    CondAfter(s, e, c);
    if Pops(s, e, c) { assert q == [q[0]] + q[1..]; }
  }

  lemma OldWaiter(s: State, e: Event, w: nat)
    requires SyncInv(s) && Allowed(s, e) && KernelAfter(s, e).Some? && KernelStep(s, e, Step(s, e).k)
    requires w < s.made <= Step(s, e).made
    ensures WaiterOk(Step(s, e), w)
  {
    WaiterSemaOk(s, e, w, KernelAfter(s, e).value);
    LocalPc(s, e);
    assert PcPlace(s, s.k.cur) by { assert PcOk(s, s.k.cur); }
    WaiterPhaseOk(s, e, w);
  }

  lemma StepWaiters(s: State, e: Event)
    requires SyncInv(s) && Allowed(s, e) && KernelAfter(s, e).Some? && KernelStep(s, e, Step(s, e).k)
    ensures Waiters(Step(s, e))
  {
    var s' := Step(s, e);
    MadeAfter(s, e);
    WaiterSemas(s, e, s'.k);
    forall w: nat | w < s'.made ensures WaiterOk(s', w) {
      if w < s.made { OldWaiter(s, e, w); } else { NewWaiter(s, e); }
    }
  }

  lemma MadeAfter(s: State, e: Event)
    requires Allowed(s, e)
    ensures Local(s, e).made == s.made + if e.CallWait? then 1 else 0
    ensures forall w :: w in Local(s, e).recs ==> w in s.recs || (e.CallWait? && w == s.made)
  {
    if e.Go? { RecordsGo(s); }
  }

  lemma RecordsGo(s: State)
    requires Allowed(s, Go)
    ensures Local(s, Go).made == s.made && Local(s, Go).recs.Keys == s.recs.Keys
  {
  }

  lemma WaiterSemas(s: State, e: Event, k': Kernel)
    requires Allowed(s, e) && KernelStep(s, e, k')
    ensures forall w: nat :: Waiter(w) in k'.semas ==> Waiter(w) in s.k.semas || (e.CallWait? && w == s.made)
  {
  }

  lemma NewWaiter(s: State, e: Event)
    requires SyncInv(s) && Allowed(s, e) && e.CallWait?
    requires KernelAfter(s, e).Some? && KernelStep(s, e, Step(s, e).k)
    ensures Step(s, e).made == s.made + 1 && WaiterOk(Step(s, e), s.made)
  {
    var d' := Step(s, e).conds[e.c];
    assert d'.queue[|d'.queue| - 1] == s.made;
  }

  // ------------------------------------------------------------------
  // Every event keeps the invariant

  lemma StepStarters(s: State, e: Event)
    requires Pcs(s) && Lists(s.k, true) && Starters(s) && Allowed(s, e)
    ensures Starters(Local(s, e))
  {
    var s' := Local(s, e);
    forall t, u | t in s'.pc && u in s'.pc && s'.pc[t].Starting? && s'.pc[t] == s'.pc[u] ensures t == u {
      StarterBefore(s, e, t);
      StarterBefore(s, e, u);
    }
  }

  /** A thread about to start another was so before, unless it has just created that other. */
  lemma StarterBefore(s: State, e: Event, t: Tid)
    requires Pcs(s) && Lists(s.k, true) && Allowed(s, e) && t in Local(s, e).pc && Local(s, e).pc[t].Starting?
    ensures || (t in s.pc && s.pc[t] == Local(s, e).pc[t] && !(e.CallCreate? && s.pc[t] == Starting(e.t)))
            || (t == s.k.cur && e.CallCreate? && Local(s, e).pc[t] == Starting(e.t))
  {
    PcAfter(s, e);
    MyStarting(s, e);
    if t in s.pc { assert PcPlace(s, t) by { assert PcOk(s, t); } }
  }

  lemma MyStarting(s: State, e: Event)
    requires Allowed(s, e)
    ensures NextPc(s, e).Starting? ==>
              NextPc(s, e) == s.pc[s.k.cur] || (e.CallCreate? && NextPc(s, e) == Starting(e.t))
  {
  }

  lemma LockSemasAfter(s: State, e: Event)
    requires Allowed(s, e) && KernelAfter(s, e).Some? && KernelStep(s, e, Step(s, e).k)
    ensures forall l :: LockSema(l) in Step(s, e).k.semas ==> LockSema(l) in s.k.semas || e == NewLock(l)
    ensures User(0) in s.k.semas ==> User(0) in Step(s, e).k.semas
    ensures e.NewLock? ==> e.l in Step(s, e).holder
  {
    LockSemasKernel(s, e, Step(s, e).k);
    if e.NewLock? { NewLockHolder(s, e); }
  }

  lemma LockSemasKernel(s: State, e: Event, k': Kernel)
    requires Allowed(s, e) && KernelStep(s, e, k')
    ensures forall l :: LockSema(l) in k'.semas ==> LockSema(l) in s.k.semas || e == NewLock(l)
    ensures User(0) in s.k.semas ==> User(0) in k'.semas
  {
  }

  lemma NewLockHolder(s: State, e: Event)
    requires Allowed(s, e) && e.NewLock?
    ensures e.l in Step(s, e).holder
  {
  }

  /** No event of any thread or interrupt handler panics, and every one keeps the invariant. */
  lemma StepKeeps(s: State, e: Event)
    requires SyncInv(s) && Allowed(s, e)
    ensures KernelAfter(s, e).Some? && SyncInv(Step(s, e))
  {
    StepFrame(s, e);
    StepPcs(s, e);
    StepLocks(s, e);
    StepConds(s, e);
    StepWaiters(s, e);
    assert PcOk(s, s.k.cur);
    LocalFrame(s, e);
    StepStarters(s, e);
    LockSemasAfter(s, e);
  }

  // ------------------------------------------------------------------
  // What the invariant says

  /** The threads between a finished sema_down on l's semaphore and the matching sema_up. */
  ghost function InsideSet(s: State, l: nat): set<Tid> { set t | t in s.pc && Inside(s, t, l) }

  ghost predicate MutualExclusion(s: State) {
    forall l :: l in s.holder ==>
      && LockSema(l) in s.k.semas
      && s.k.semas[LockSema(l)].value + |InsideSet(s, l)| == 1
      && (s.holder[l].Some? ==> InsideSet(s, l) == {s.holder[l].value})
  }

  ghost predicate StillAsleep(s: State, t: Tid, w: nat) {
    && w in s.recs && s.recs[w].thread == t
    && match s.recs[w].phase
       case Waiting => s.recs[w].cond in s.conds && w in s.conds[s.recs[w].cond].queue
       case Popped(u) => u in s.pc && s.pc[u].Signalling? && s.pc[u].w == w
       case Signalled => false
  }

  /** A thread asleep on a waiter has not been signalled: its waiter is still queued, or its signaller
      is about to call sema_up.  A thread still inside the wait whose waiter has been signalled is
      not asleep, and finds the unit that the signal left. */
  ghost predicate NoLostSignal(s: State) {
    && (forall t, w: nat :: t in s.k.wait && s.k.wait[t] == Asleep(Waiter(w)) ==> StillAsleep(s, t, w))
    && (forall t :: t in s.pc && s.pc[t].Sleeping? && s.pc[t].w in s.recs && s.recs[s.pc[t].w].phase == Signalled ==>
          && Available(s.k, Waiter(s.pc[t].w))
          && t in s.k.status && (s.k.status[t] == Ready || s.k.status[t] == Running))
  }

  /** Waiters are signalled at most once each, in the order in which they joined. */
  ghost predicate SignalsInOrder(s: State) {
    && (forall c :: c in s.conds ==>
          s.conds[c].joined == s.conds[c].signalled + s.conds[c].queue && NoDup(s.conds[c].joined))
    && (forall w: nat :: w < s.made ==> Waiter(w) in s.k.semas && s.k.semas[Waiter(w)].ups <= 1)
  }

  lemma InvMeansExclusion(s: State)
    requires SyncInv(s)
    ensures MutualExclusion(s)
  {
    forall l | l in s.holder
      ensures LockSema(l) in s.k.semas && s.k.semas[LockSema(l)].value + |InsideSet(s, l)| == 1
      ensures s.holder[l].Some? ==> InsideSet(s, l) == {s.holder[l].value}
    {
      assert LockOk(s, l);
      assert InsideSet(s, l) == if s.owner[l] == None then {} else {s.owner[l].value};
    }
  }

  lemma InvMeansSignals(s: State)
    requires SyncInv(s)
    ensures NoLostSignal(s) && SignalsInOrder(s)
  {
    forall c | c in s.conds ensures CondOk(s, c) {
    }
    forall w: nat | w < s.made ensures Waiter(w) in s.k.semas && s.k.semas[Waiter(w)].ups <= 1 {
      assert WaiterOk(s, w);
    }
    forall t, w: nat | t in s.k.wait && s.k.wait[t] == Asleep(Waiter(w)) ensures StillAsleep(s, t, w) {
      assert ThreadOk(s.k, t, true);
      assert WaiterOk(s, w);
    }
    forall t | t in s.pc && s.pc[t].Sleeping? && s.pc[t].w in s.recs && s.recs[s.pc[t].w].phase == Signalled
      ensures Available(s.k, Waiter(s.pc[t].w))
      ensures t in s.k.status && (s.k.status[t] == Ready || s.k.status[t] == Running)
    {
      SignalledIsAwake(s, t);
    }
  }

  lemma SignalledIsAwake(s: State, t: Tid)
    requires SyncInv(s) && t in s.pc && s.pc[t].Sleeping? && s.pc[t].w in s.recs && s.recs[s.pc[t].w].phase == Signalled
    ensures Available(s.k, Waiter(s.pc[t].w))
    ensures t in s.k.status && (s.k.status[t] == Ready || s.k.status[t] == Running)
  {
    var w := s.pc[t].w;
    assert PcOk(s, t) && WaiterOk(s, w) && SemaOk(s.k, Waiter(w));
    assert t !in s.k.exited;
    assert t in s.k.status;
    assert ThreadOk(s.k, t, true);
  }

  // ------------------------------------------------------------------
  // Runs

  /** thread_start waiting for the idle thread to announce itself. */
  function Started(main: Tid, idler: Tid): State {
    State(Boot(main, idler), map[main := InDown(0), idler := IdleFirst], map[], map[], map[], 0, map[])
  }

  lemma StartHolds(main: Tid, idler: Tid)
    requires main != idler
    ensures SyncInv(Started(main, idler))
  {
    BootHolds(main, idler);
    var s := Started(main, idler);
    forall t | t in s.pc ensures PcOk(s, t) {
    }
  }

  /** Each event is one that the source's assertions allow when its turn comes. */
  ghost predicate IsTrace(s: State, run: seq<Event>)
    decreases |run|
  {
    run != [] ==> Allowed(s, run[0]) && KernelAfter(s, run[0]).Some? && IsTrace(Step(s, run[0]), run[1..])
  }

  ghost function End(s: State, run: seq<Event>): State
    requires IsTrace(s, run)
    decreases |run|
  {
    if run == [] then s else End(Step(s, run[0]), run[1..])
  }

  /** Every interleaving: any trace at all keeps every property. */
  lemma {:induction false} TraceKeeps(s: State, run: seq<Event>)
    requires SyncInv(s) && IsTrace(s, run)
    ensures SyncInv(End(s, run))
    ensures MutualExclusion(End(s, run)) && NoLostSignal(End(s, run)) && SignalsInOrder(End(s, run))
    ensures NoLostWakeup(End(s, run).k) && Balanced(End(s, run).k)
    decreases |run|
  {
    if run == [] {
      InvMeansExclusion(s);
      InvMeansSignals(s);
      InvMeansWakeups(s.k);
    } else {
      StepKeeps(s, run[0]);
      TraceKeeps(Step(s, run[0]), run[1..]);
    }
  }

  /** t is in a call from the start of the trace until its last state. */
  ghost predicate InCall(s: State, run: seq<Event>, t: Tid)
    requires IsTrace(s, run)
    decreases |run|
  {
    run != [] ==> t in s.pc && s.pc[t] != Code && InCall(Step(s, run[0]), run[1..], t)
  }

  // cond_wait

  /** t is in the cond_wait call that made waiter w. */
  ghost predicate InWait(s: State, t: Tid, c: nat, w: nat) {
    && t in s.pc && c in s.conds && w in s.recs
    && var l := s.conds[c].lock;
       || s.pc[t] == Queued(c, w) || s.pc[t] == Releasing(l, ThenSleep(c, w)) || s.pc[t] == Sleeping(c, w)
       || (s.recs[w].phase == Signalled && (s.pc[t] == Acquiring(l) || s.pc[t] == Acquired(l)))
  }

  ghost predicate WaitDone(s: State, t: Tid, c: nat, w: nat) {
    t in s.pc && s.pc[t] == Code && HolderIs(s, c, t) && w in s.recs && s.recs[w].phase == Signalled
  }

  lemma WaitStep(s: State, e: Event, t: Tid, c: nat, w: nat)
    requires SyncInv(s) && Allowed(s, e) && InWait(s, t, c, w) && KernelAfter(s, e).Some?
    ensures InWait(Step(s, e), t, c, w) || WaitDone(Step(s, e), t, c, w)
  {
    StepFrame(s, e);
    if t == s.k.cur { WaitMyStep(s, e, c, w); }
  }

  lemma WaitMyStep(s: State, e: Event, c: nat, w: nat)
    requires SyncInv(s) && Allowed(s, e) && InWait(s, s.k.cur, c, w)
    requires RecordFrame(s, Local(s, e))
    ensures InWait(Local(s, e), s.k.cur, c, w) || WaitDone(Local(s, e), s.k.cur, c, w)
  {
    var me := s.k.cur;
    assert PcOk(s, me);
    if s.pc[me] == Sleeping(c, w) {
      assert WaiterOk(s, w) && SemaOk(s.k, Waiter(w));
    }
  }

  /** cond_wait returns only with the lock held, and only after its waiter has been signalled. */
  lemma {:induction false} WaitReturnsHolding(s: State, run: seq<Event>, t: Tid, c: nat, w: nat)
    requires SyncInv(s) && IsTrace(s, run) && InWait(s, t, c, w)
    requires InCall(s, run, t) && t in End(s, run).pc && End(s, run).pc[t] == Code
    ensures WaitDone(End(s, run), t, c, w)
    decreases |run|
  {
    if run != [] {
      var s' := Step(s, run[0]);
      StepKeeps(s, run[0]);
      WaitStep(s, run[0], t, c, w);
      if WaitDone(s', t, c, w) {
        assert run[1..] == [];
      } else {
        WaitReturnsHolding(s', run[1..], t, c, w);
      }
    }
  }

  // cond_broadcast

  ghost predicate InBroadcast(s: State, t: Tid, c: nat) {
    && t in s.pc && c in s.conds
    && (s.pc[t] == Broadcasting(c) || (s.pc[t].Signalling? && s.pc[t].c == c && s.pc[t].more))
  }

  /** How many steps of its own the broadcaster still needs before it finds the queue empty. */
  ghost function StepsLeft(s: State, t: Tid, c: nat): nat
    requires InBroadcast(s, t, c)
  {
    2 * |s.conds[c].queue| + if s.pc[t].Signalling? then 1 else 0
  }

  ghost function OwnSteps(s: State, run: seq<Event>, t: Tid): nat
    requires IsTrace(s, run)
    decreases |run|
  {
    if run == [] then 0
    else (if run[0].Go? && s.k.cur == t then 1 else 0) + OwnSteps(Step(s, run[0]), run[1..], t)
  }

  /** Nobody can join or leave the queue behind the broadcaster's back, since it holds the lock. */
  lemma BroadcastStep(s: State, e: Event, t: Tid, c: nat)
    requires SyncInv(s) && Allowed(s, e) && InBroadcast(s, t, c) && KernelAfter(s, e).Some?
    ensures var s', own := Step(s, e), e.Go? && s.k.cur == t;
            && t in s'.pc && c in s'.conds
            && if own && StepsLeft(s, t, c) == 0 then
                 s'.pc[t] == Code && s'.conds[c].queue == []
               else
                 InBroadcast(s', t, c) && StepsLeft(s', t, c) == StepsLeft(s, t, c) - if own then 1 else 0
  {
    assert PcOk(s, s.k.cur);
    LocalFrame(s, e);
    CondAfter(s, e, c);
    if t == s.k.cur { BroadcastOwnStep(s, e, c); } else { BroadcastOtherStep(s, e, t, c); }
  }

  lemma BroadcastOwnStep(s: State, e: Event, c: nat)
    requires Allowed(s, e) && InBroadcast(s, s.k.cur, c) && PcFrame(s, Local(s, e))
    ensures var s', t := Local(s, e), s.k.cur;
            && t in s'.pc && c in s'.conds
            && if e.Go? && StepsLeft(s, t, c) == 0 then
                 s'.pc[t] == Code && s'.conds[c].queue == []
               else
                 InBroadcast(s', t, c) && StepsLeft(s', t, c) == StepsLeft(s, t, c) - if e.Go? then 1 else 0
  {
  }

  lemma BroadcastOtherStep(s: State, e: Event, t: Tid, c: nat)
    requires SyncInv(s) && Allowed(s, e) && InBroadcast(s, t, c) && t != s.k.cur
    ensures e != CallWait(c) && !Pops(s, e, c)
  {
    assert PcOk(s, t) && PcOk(s, s.k.cur);
  }

  /** cond_broadcast ends after a number of its own steps fixed at the call, with an empty queue. */
  lemma {:induction false} BroadcastEmpties(s: State, run: seq<Event>, t: Tid, c: nat)
    requires SyncInv(s) && IsTrace(s, run) && InBroadcast(s, t, c)
    requires InCall(s, run, t) && t in End(s, run).pc && End(s, run).pc[t] == Code
    ensures c in End(s, run).conds && End(s, run).conds[c].queue == []
    ensures OwnSteps(s, run, t) == StepsLeft(s, t, c) + 1
    decreases |run|
  {
    if run != [] {
      var s' := Step(s, run[0]);
      StepKeeps(s, run[0]);
      BroadcastStep(s, run[0], t, c);
      if s'.pc[t] == Code {
        assert run[1..] == [];
      } else {
        BroadcastEmpties(s', run[1..], t, c);
      }
    }
  }

  /** As long as the broadcaster has not returned it has taken no more steps than it needs. */
  lemma {:induction false} BroadcastIsBounded(s: State, run: seq<Event>, t: Tid, c: nat)
    requires SyncInv(s) && IsTrace(s, run) && InBroadcast(s, t, c)
    requires InCall(s, run, t) && t in End(s, run).pc && End(s, run).pc[t] != Code
    ensures OwnSteps(s, run, t) <= StepsLeft(s, t, c)
    decreases |run|
  {
    if run != [] {
      var s' := Step(s, run[0]);
      StepKeeps(s, run[0]);
      BroadcastStep(s, run[0], t, c);
      BroadcastIsBounded(s', run[1..], t, c);
    }
  }

  // Histories only grow.

  lemma {:induction false} HistoriesGrow(s: State, run: seq<Event>, c: nat)
    requires SyncInv(s) && IsTrace(s, run) && c in s.conds
    ensures c in End(s, run).conds
    ensures s.conds[c].joined <= End(s, run).conds[c].joined && s.conds[c].signalled <= End(s, run).conds[c].signalled
    decreases |run|
  {
    if run != [] {
      var s1 := Step(s, run[0]);
      StepKeeps(s, run[0]);
      CondAfter(s, run[0], c);
      assert c in s1.conds && s.conds[c].joined <= s1.conds[c].joined && s.conds[c].signalled <= s1.conds[c].signalled;
      HistoriesGrow(s1, run[1..], c);
      assert End(s, run) == End(s1, run[1..]);
    }
  }

  /** What the broadcaster owes waiter w. */
  ghost predicate Served(s: State, t: Tid, c: nat, w: nat)
    requires t in s.pc
  {
    && c in s.conds && w in s.recs
    && (w in s.conds[c].queue || s.pc[t] == Signalling(c, w, true) || s.recs[w].phase == Signalled)
  }

  lemma ServeStep(s: State, e: Event, t: Tid, c: nat, w: nat)
    requires Allowed(s, e) && InBroadcast(s, t, c) && Served(s, t, c, w) && t in Local(s, e).pc
    requires PcFrame(s, Local(s, e)) && RecordFrame(s, Local(s, e))
    requires t != s.k.cur ==> e != CallWait(c) && !Pops(s, e, c)
    ensures Served(Local(s, e), t, c, w)
  {
    CondAfter(s, e, c);
    if t == s.k.cur { ServeOwnStep(s, e, c, w); }
  }

  lemma ServeOwnStep(s: State, e: Event, c: nat, w: nat)
    requires Allowed(s, e) && InBroadcast(s, s.k.cur, c) && Served(s, s.k.cur, c, w) && s.k.cur in Local(s, e).pc
    requires RecordFrame(s, Local(s, e))
    ensures Served(Local(s, e), s.k.cur, c, w)
  {
    if w in s.conds[c].queue {
      assert s.conds[c].queue == [s.conds[c].queue[0]] + s.conds[c].queue[1..];
    }
  }

  /** Every waiter queued when cond_broadcast is called has been signalled when it returns. */
  lemma {:induction false} BroadcastWakesAll(s: State, run: seq<Event>, t: Tid, c: nat, w: nat)
    requires SyncInv(s) && IsTrace(s, run) && InBroadcast(s, t, c) && Served(s, t, c, w)
    requires InCall(s, run, t) && t in End(s, run).pc && End(s, run).pc[t] == Code
    ensures w in End(s, run).recs && End(s, run).recs[w].phase == Signalled
    decreases |run|
  {
    if run != [] {
      var s' := Step(s, run[0]);
      StepKeeps(s, run[0]);
      BroadcastStep(s, run[0], t, c);
      assert PcOk(s, s.k.cur);
      LocalFrame(s, run[0]);
      if t != s.k.cur { BroadcastOtherStep(s, run[0], t, c); }
      ServeStep(s, run[0], t, c, w);
      if s'.pc[t] == Code {
        assert run[1..] == [];
      } else {
        BroadcastWakesAll(s', run[1..], t, c, w);
      }
    }
  }
}
