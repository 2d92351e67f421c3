/** The kernel's threads and semaphores as mutable state (src/threads/thread.c, src/threads/synch.c,
    src/devices/timer.c). Each method does what the code does with its globals and is proved to take the step
    that the machine of module Kernel takes, so that everything proved of runs holds of it. */
module Machine {
  import opened Options
  import opened SequenceSort
  import opened Kernel
  import opened KernelInvariant
  import opened KernelRuns
  import opened SleepWindow

  class Machine {
    var status: map<nat, Status>
    var pc: map<nat, Pc>
    var running: nat
    var ready: seq<nat>
    var sleepers: seq<Sleeper>
    var arrivals: nat
    var semas: map<SemaId, Sema>
    var holders: map<nat, Option<nat>>
    var ticks: int
    var threadTicks: nat

    ghost function Now(): (k: State)
      reads this
    {
      State(status, pc, running, ready, sleepers, arrivals, semas, holders, ticks, threadTicks)
    }

    /** The machine at thread_start. */
    constructor (k: State)
      requires Booted(k)
      ensures Now() == k && Inv(Now())
    {
      status, pc, running, ready, sleepers := k.status, k.pc, k.running, k.ready, k.sleepers;
      arrivals, semas, holders, ticks, threadTicks := k.arrivals, k.semas, k.holders, k.ticks, k.threadTicks;
      new;
      hide Booted, Inv;
      BootedInv(k);
    }

    /** schedule. */
    method Schedule()
      modifies this
      ensures Now() == Kernel.Schedule(old(Now()))
    {
      var next := IDLE;
      if ready != [] {
        next := ready[0];
        ready := ready[1..];
      }
      running := next;
      status := status[next := Running];
      threadTicks := 0;
    }

    /** thread_block. */
    method ThreadBlock(next: Pc)
      modifies this
      ensures Now() == Kernel.Block(old(Now()), next)
    {
      status := status[running := Blocked];
      pc := pc[running := next];
      Schedule();
    }

    /** thread_unblock. */
    method ThreadUnblock(t: nat)
      requires Wakeable(Now(), t)
      modifies this`ready, this`status
      ensures Now() == Kernel.Unblock(old(Now()), t)
    {
      ready := ready + [t];
      status := status[t := Ready];
    }

    /** thread_yield. */
    method ThreadYield()
      modifies this
      ensures Now() == Kernel.Yield(old(Now()))
    {
      if running != IDLE {
        ready := ready + [running];
      }
      status := status[running := Ready];
      Schedule();
    }

    /** One pass through the loop of sema_down. */
    method SemaDown(s: SemaId)
      requires s in semas
      modifies this
      ensures Now() == Kernel.DownOnce(old(Now()), s)
    {
      var q := semas[s];
      if q.value == 0 {
        semas := semas[s := q.(waiters := q.waiters + [running])];
        ThreadBlock(InDown(s));
      } else {
        semas := semas[s := q.(value := q.value - 1)];
        pc := pc[running := AfterDown(s)];
      }
    }

    /** sema_up. */
    method SemaUp(s: SemaId)
      requires s in semas && (semas[s].waiters != [] ==> Wakeable(Now(), semas[s].waiters[0]))
      modifies this
      ensures Now() == Kernel.Up(old(Now()), s)
    {
      if semas[s].waiters != [] {
        var t := semas[s].waiters[0];
        semas := semas[s := semas[s].(waiters := semas[s].waiters[1..])];
        ThreadUnblock(t);
      }
      semas := semas[s := semas[s].(value := semas[s].value + 1)];
    }

    /** timer_sleep up to and including list_insert_ordered. */
    method JoinSleepers(n: int)
      modifies this`sleepers, this`arrivals
      ensures Now() == Kernel.Bedded(old(Now()), n)
    {
      hide Slot;
      var e := Sleeper(running, ticks + n, arrivals);
      var i := FindPlace(e);
      sleepers := sleepers[..i] + [e] + sleepers[i..];
      arrivals := arrivals + 1;
    }

    /** timer_sleep, when no interrupt comes before thread_block. */
    method TimerSleep(n: int)
      modifies this
      ensures Now() == Kernel.Sleep(old(Now()), n)
    {
      hide Kernel.Bedded, Kernel.Schedule;
      JoinSleepers(n);
      ThreadBlock(Sleeping);
    }

    /** The search of list_insert_ordered with compare_thread. */
    method FindPlace(e: Sleeper) returns (i: nat)
      ensures i == Slot(WakesBefore, sleepers, e)
    {
      i := 0;
      while i < |sleepers| && !WakesBefore(e, sleepers[i])
        invariant i <= |sleepers|
        invariant Slot(WakesBefore, sleepers, e) == i + Slot(WakesBefore, sleepers[i..], e)
      {
        assert sleepers[i..][1..] == sleepers[i + 1..];
        i := i + 1;
      }
    }

    /** repeated_check_blocked_list; it returns false where the assertion of thread_unblock fails. */
    method CheckBlockedList() returns (ok: bool)
      modifies this
      ensures WakeLoop(old(Now())) == if ok then Ran(Now()) else Panicked
    {
      while sleepers != [] && sleepers[0].wake <= ticks
        invariant WakeLoop(Now()) == WakeLoop(old(Now()))
        decreases |sleepers|
      {
        var t := sleepers[0].tid;
        if t !in status || status[t] != Blocked {
          return false;
        }
        sleepers := sleepers[1..];
        pc := pc[t := Free];
        ThreadUnblock(t);
      }
      ok := true;
    }

    /** timer_interrupt, thread_tick, and the yield on return. */
    method TimerInterrupt() returns (ok: bool)
      modifies this
      ensures var w := WakeLoop(Later(old(Now()))); (ok <==> w.Ran?) && (ok ==> Now() == CountTick(w.k))
      ensures SleepersWakeable(old(Now())) ==> ok && Now() == Kernel.Tick(old(Now()))
    {
      hide WakeLoop, Kernel.WakeDue, SleepersWakeable, Kernel.CountTick;
      if SleepersWakeable(Now()) {
        LoopLater(Now());
      }
      ticks := ticks + 1;
      ok := CheckBlockedList();
      if ok {
        ThreadTick();
      }
    }

    /** thread_tick and the yield that it asks for. */
    method ThreadTick()
      modifies this
      ensures Now() == Kernel.CountTick(old(Now()))
    {
      hide Kernel.Schedule;
      threadTicks := threadTicks + 1;
      if threadTicks >= TIME_SLICE {
        ThreadYield();
      }
    }

    /** The steps of lock_acquire, lock_try_acquire and lock_release. */
    method TakeLockStep(a: Step)
      requires Enabled(Now(), a) && Unblockable(Now())
      requires a.Acquire? || a.TryAcquire? || a.TakeHolder? || a.Release? || a.FinishRelease?
      modifies this
      ensures Now() == Next(old(Now()), a)
    {
      hide Kernel.DownOnce, Kernel.Up, SleepersWakeable;
      match a {
        case Acquire(l) =>
          if holders[l] != Some(running) {
            SemaDown(OfLock(l));
          }
        case TryAcquire(l) =>
          if semas[OfLock(l)].value > 0 {
            semas := semas[OfLock(l) := semas[OfLock(l)].(value := semas[OfLock(l)].value - 1)];
            pc := pc[running := Acquired(l)];
          }
        case TakeHolder =>
          holders := holders[pc[running].l := Some(running)];
          pc := pc[running := Free];
        case Release(l) =>
          holders := holders[l := None];
          pc := pc[running := Releasing(l)];
        case FinishRelease =>
          var l := pc[running].l;
          pc := pc[running := Free];
          SemaUp(OfLock(l));
      }
    }

    /** Any step that is enabled, taken by the methods above, keeps the invariant. */
    method Take(a: Step)
      requires Inv(Now()) && Enabled(Now(), a) && Unblockable(Now())
      modifies this
      ensures Now() == Next(old(Now()), a) && Inv(Now())
    {
      hide Inv, Kernel.DownOnce, Kernel.Up, Kernel.Tick, Kernel.Sleep, Kernel.Yield, Kernel.Schedule, SleepersWakeable, WakeLoop,
           Kernel.CountTick;
      StepKeeps(Now(), a);
      match a {
        case Down(n) => SemaDown(Plain(n));
        case TryDown(n) =>
          if semas[Plain(n)].value > 0 {
            semas := semas[Plain(n) := semas[Plain(n)].(value := semas[Plain(n)].value - 1)];
          }
        case SemaUp(n) => SemaUp(Plain(n));
        case Retry => SemaDown(pc[running].s);
        case YieldCpu => ThreadYield();
        case TimerTick =>
          var ok := TimerInterrupt();
          assert ok;
        case SleepFor(n) => TimerSleep(n);
        case Create(t) =>
          status := status[t := Blocked];
          pc := pc[t := Free];
          ThreadUnblock(t);
        case Exit =>
          status := status[running := Dying];
          Schedule();
        case IdleBlock => ThreadBlock(Free);
        case _ => TakeLockStep(a);
      }
    }
  }
}
