/** thread.c and the semaphores of synch.c as the code that updates them in place: one object whose
    methods run with interrupts off, each proved to take the step that Scheduler describes. */
module Processor {
  import opened Basics
  import opened Scheduler

  class Machine {
    var cur: Tid
    var status: map<Tid, Status>
    var readyList: seq<Tid>
    var idleThread: Option<Tid>
    const initialThread: Tid
    var threadTicks: nat
    var semas: map<Sid, Sema>

    // History, and what the source keeps on the threads' own stacks.
    ghost const idler: Tid
    ghost var wait: map<Tid, Wait>
    ghost var newborn: set<Tid>
    ghost var exited: set<Tid>
    ghost var freed: seq<Tid>

    ghost function View(): Kernel
      reads this
    {
      Kernel(cur, status, readyList, idler, idleThread.Some?, initialThread, threadTicks,
             semas, wait, newborn, exited, freed)
    }

    ghost predicate IdleKnown()
      reads this
    {
      idleThread == None || idleThread == Some(idler)
    }

    ghost predicate Valid()
      reads this
    {
      IdleKnown() && Inv(View())
    }

    // ----------------------------------------------------------------
    // thread.c

    method NextThread() returns (next: Tid)
      requires IdleKnown() && NextThreadToRun(View()).Some?
      modifies `readyList
      ensures next == NextThreadToRun(old(View())).value
      ensures readyList == if old(readyList) == [] then [] else old(readyList)[1..]
    {
      if readyList == [] {
        next := idleThread.value;
      } else {
        next := readyList[0];
        readyList := readyList[1..];
      }
    }

    method Tail(prev: Option<Tid>)
      requires cur in status && (prev.Some? ==> prev.value in status)
      requires prev.Some? && status[prev.value] == Dying ==> prev.value != cur
      modifies `status, `threadTicks, `wait, `freed
      ensures View() == ScheduleTail(old(View()), prev)
    {
      var dying := prev.Some? && status[prev.value] == Dying && prev.value != initialThread;
      status := status[cur := Running];
      threadTicks := 0;
      if dying {
        assert prev.value != cur;
        status := status - {prev.value};
        wait := wait - {prev.value};
        freed := freed + [prev.value];
      }
    }

    method Schedule()
      requires IdleKnown() && Descheduled(View())
      modifies this
      ensures Valid()
      ensures NextThreadToRun(old(View())).Some? && View() == Scheduler.Schedule(old(View()))
    {
      ghost var k := View();
      NextIsAlive(k);
      ScheduleKeeps(k);
      assert status[cur] != Running by { assert ThreadOk(k, cur, false); }
      var prev := cur;
      var next := NextThread();
      cur := next;
      Tail(if prev != next then Some(prev) else None);
    }

    method Block()
      requires IdleKnown() && Descheduled(Demote(View(), Blocked))
      modifies this
      ensures Valid() && NextThreadToRun(Demote(old(View()), Blocked)).Some?
      ensures View() == Scheduler.Schedule(Demote(old(View()), Blocked))
    {
      status := status[cur := Blocked];
      Schedule();
    }

    method Unblock(t: Tid)
      requires t in status && status[t] == Blocked
      modifies `readyList, `status
      ensures View() == Scheduler.Unblock(old(View()), t)
    {
      readyList := readyList + [t];
      status := status[t := Ready];
    }

    /** thread_yield; at the end of a time slice the tick count is already TIME_SLICE. */
    method Yield()
      requires IdleKnown() && Inv(View().(ticks := 0))
      modifies this
      ensures Valid() && NextThreadToRun(Enqueued(old(View()))).Some?
      ensures View() == Scheduler.Schedule(Enqueued(old(View())))
    {
      EnqueuedKeeps(View().(ticks := 0), Enqueued(View()));
      if idleThread != Some(cur) {
        readyList := readyList + [cur];
      }
      status := status[cur := Ready];
      Schedule();
    }

    method Exit()
      requires Valid() && Enabled(View(), AExit)
      modifies this
      ensures Valid() && Apply(old(View()), AExit) == Some(View())
    {
      ExitingKeeps(View());
      status := status[cur := Dying];
      exited := exited + {cur};
      Schedule();
    }

    /** thread_tick and, on the way out of the interrupt, the yield it may have asked for. */
    method Tick()
      requires Valid()
      modifies this
      ensures Valid() && Apply(old(View()), ATick) == Some(View())
    {
      ghost var k := View();
      threadTicks := threadTicks + 1;
      if threadTicks >= TIME_SLICE {
        InvIgnoresTicks(k, 0);
        TickYields(k);
        Yield();
      } else {
        TickKeeps(k);
      }
    }

    // ----------------------------------------------------------------
    // synch.c

    /** One turn of sema_down's loop.  When it blocks, the caller takes the next turn after it has
        been woken and dispatched again. */
    method DownTurn(s: Sid) returns (done: bool)
      requires Valid() && Enabled(View(), ADown(s))
      modifies this
      ensures Valid() && Apply(old(View()), ADown(s)) == Some(View())
      ensures done == (old(semas)[s].value > 0)
    {
      var m := semas[s];
      done := m.value != 0;
      if m.value == 0 {
        ParkedKeeps(View(), s);
        semas := semas[s := m.(waiters := m.waiters + [cur])];
        wait := wait[cur := Asleep(s)];
        Block();
      } else {
        DownKeeps(View(), s);
        semas := semas[s := m.(value := m.value - 1, downs := m.downs + 1)];
        wait := wait[cur := Awake];
      }
    }

    method TryDown(s: Sid) returns (success: bool)
      requires Valid() && Enabled(View(), ATryDown(s))
      modifies `semas
      ensures Valid() && Apply(old(View()), ATryDown(s)) == Some(View())
      ensures success == (old(semas)[s].value > 0)
    {
      TryDownKeeps(View(), s);
      var m := semas[s];
      success := m.value > 0;
      if success {
        semas := semas[s := m.(value := m.value - 1, downs := m.downs + 1)];
      }
    }

    method Up(s: Sid)
      requires Valid() && Enabled(View(), AUp(s))
      modifies `readyList, `status, `wait, `semas
      ensures Valid() && Apply(old(View()), AUp(s)) == Some(View())
    {
      UpKeeps(View(), s);
      var m := semas[s];
      if m.waiters != [] {
        var t := m.waiters[0];
        m := m.(waiters := m.waiters[1..]);
        wait := wait[t := Woken(s)];
        Unblock(t);
      }
      semas := semas[s := m.(value := m.value + 1, ups := m.ups + 1)];
    }
  }

  lemma TickYields(k: Kernel)
    requires k.ticks + 1 >= TIME_SLICE && k.cur in k.status
    ensures var k1 := Enqueued(k.(ticks := k.ticks + 1));
            k1.cur in k1.status && (NextThreadToRun(k1).Some? ==> Apply(k, ATick) == Some(Scheduler.Schedule(k1)))
  {
  }

  lemma InvIgnoresTicks(k: Kernel, n: nat)
    requires Inv(k) && n < TIME_SLICE
    ensures Inv(k.(ticks := n))
  {
    var k' := k.(ticks := n);
    forall t | t in k'.status ensures ThreadOk(k', t, true) {
      assert ThreadOk(k, t, true);
    }
    SemasFrame(k, k');
  }
}
