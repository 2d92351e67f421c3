/** Whole runs of the machine: the invariant holds in every reachable state, and a ready thread gets the
    processor by exactly the schedule call that its place in the ready list says. */
module KernelRuns {
  import opened Options
  import opened Kernel
  import opened KernelInvariant
  import opened KernelSteps
  import opened AlarmClock

  // ----- every step -----

  lemma CreateKeeps(k: State, t: nat)
    requires Inv(k) && t !in k.status && t !in k.pc
    ensures Inv(Unblock(k.(status := k.status[t := Blocked], pc := k.pc[t := Free]), t))
  {
    var m := Unblock(k.(status := k.status[t := Blocked], pc := k.pc[t := Free]), t);
    CreateThreads(k, t, m);
    CreateSleepers(k, t, m);
    hide ReadyOk, Threads, SameRoles, WaitersOk, SemasOk, LocksOk, SleepersOk;
    RolesKept(k, m);
  }

  lemma CreateThreads(k: State, c: nat, m: State)
    requires Threads(k, Some(k.running)) && ReadyOk(k) && c !in k.status
    requires m.status == k.status[c := Ready] && m.pc == k.pc[c := Free] && m.ready == k.ready + [c]
    requires m.semas == k.semas && m.holders == k.holders && m.running == k.running
    ensures Threads(m, Some(m.running)) && ReadyOk(m) && SameRoles(k, m)
  {
    forall t | t in m.status ensures ThreadOk(m, Some(m.running), t) {
      assert t in k.status ==> ThreadOk(k, Some(k.running), t);
    }
    hide SameRoles, ReadyOk;
    CreateReady(k, c, m);
    CreateRoles(k, c, m);
  }

  lemma CreateRoles(k: State, c: nat, m: State)
    requires c !in k.status && c !in k.pc && m.status == k.status[c := Ready] && m.pc == k.pc[c := Free]
    requires m.semas == k.semas && m.holders == k.holders
    ensures SameRoles(k, m)
  {
    assert forall s :: Woken(m, s) == Woken(k, s);
  }

  lemma CreateReady(k: State, c: nat, m: State)
    requires ReadyOk(k) && c !in k.status && c != IDLE && m.status == k.status[c := Ready] && m.ready == k.ready + [c]
    ensures ReadyOk(m)
  {
    assert !OnReady(k, c);
    forall t: nat ensures t in m.ready <==> OnReady(m, t) {
      assert t in k.ready <==> OnReady(k, t);
    }
  }

  lemma CreateSleepers(k: State, c: nat, m: State)
    requires SleepersOk(k) && c !in k.pc && m.pc == k.pc[c := Free] && m.sleepers == k.sleepers && m.arrivals == k.arrivals
    ensures SleepersOk(m)
  {
    forall t: nat ensures SleepsIn(m.sleepers, t) <==> OnSleep(m, t) {
      assert SleepsIn(k.sleepers, t) <==> OnSleep(k, t);
    }
  }

  /** What the invariant says about the running thread. */
  lemma RunningFacts(k: State)
    requires Inv(k)
    ensures k.running in k.pc && k.running in k.status && (k.running == IDLE ==> k.pc[k.running] == Free)
    ensures Unblockable(k)
  {
    AlwaysUnblockable(k);
  }

  /** One pass through sema_down, whatever it finds. */
  lemma DownKeeps(k: State, s: SemaId)
    requires Inv(k) && s in k.semas && k.running in k.pc && k.running != IDLE
    requires k.pc[k.running] == Free || k.pc[k.running] == InDown(s)
    ensures Inv(DownOnce(k, s))
  {
    hide Inv;
    if k.semas[s].value == 0 {
      WaitKeeps(k, s);
    } else {
      TakeKeeps(k, s, AfterDown(s));
    }
  }

  lemma StepKeeps(k: State, a: Step)
    requires Inv(k) && Enabled(k, a)
    ensures Unblockable(k) && Inv(Next(k, a))
  {
    hide Inv, Unblockable, DownOnce, Up, Tick, Sleep, Yield, Schedule;
    RunningFacts(k);
    match a {
      case Down(n) => DownKeeps(k, Plain(n));
      case TryDown(n) =>
        if k.semas[Plain(n)].value > 0 {
          TakeKeeps(k, Plain(n), k.pc[k.running]);
        }
      case SemaUp(n) => PlainUpKeeps(k, n);
      case Retry => DownKeeps(k, k.pc[k.running].s);
      case Acquire(l) =>
        if k.holders[l] != Some(k.running) {
          DownKeeps(k, OfLock(l));
        }
      case TryAcquire(l) =>
        if k.semas[OfLock(l)].value > 0 {
          TakeKeeps(k, OfLock(l), Acquired(l));
        }
      case TakeHolder => TakeHolderKeeps(k);
      case Release(l) => ReleaseKeeps(k, l);
      case FinishRelease => FinishReleaseKeeps(k);
      case YieldCpu => YieldKeeps(k);
      case TimerTick => TickKeeps(k);
      case SleepFor(n) => SleepKeeps(k, n);
      case Create(t) => CreateKeeps(k, t);
      case Exit => LeaveKeeps(k, Dying);
      case IdleBlock =>
        assert k.pc[k.running := Free] == k.pc;
        LeaveKeeps(k, Blocked);
    }
  }

  // ----- runs -----

  /** The steps can be taken one after the other. */
  ghost predicate Possible(k: State, steps: seq<Step>)
    decreases |steps|
  {
    steps == [] || (Enabled(k, steps[0]) && Unblockable(k) && Possible(Next(k, steps[0]), steps[1..]))
  }

  ghost function Final(k: State, steps: seq<Step>): (n: State)
    requires Possible(k, steps)
    decreases |steps|
  {
    if steps == [] then k else Final(Next(k, steps[0]), steps[1..])
  }

  /** Every state of every run is in order, and a step that is enabled never finds a thread to unblock that is
      not blocked. */
  lemma {:induction false} RunKeeps(k: State, steps: seq<Step>)
    requires Inv(k) && Possible(k, steps)
    ensures Inv(Final(k, steps)) && Unblockable(Final(k, steps))
    decreases |steps|
  {
    hide Inv, Unblockable, Next, Enabled;
    if steps == [] {
      RunningFacts(k);
    } else {
      StepKeeps(k, steps[0]);
      RunKeeps(Next(k, steps[0]), steps[1..]);
    }
  }

  /** The machine after thread_start: one thread runs, the idle thread is blocked, semaphores have their initial
      values and locks are free. */
  ghost predicate Booted(k: State)
  {
    && k.running != IDLE && k.status == map[IDLE := Blocked, k.running := Running] && k.pc == map[IDLE := Free, k.running := Free]
    && k.ready == [] && k.sleepers == [] && k.threadTicks < TIME_SLICE
    && (forall s | s in k.semas :: k.semas[s].waiters == [])
    && (forall l | l in k.holders :: k.holders[l] == None && OfLock(l) in k.semas && k.semas[OfLock(l)].value == 1)
    && (forall l | OfLock(l) in k.semas :: l in k.holders)
  }

  lemma BootedInv(k: State)
    requires Booted(k)
    ensures Inv(k)
  {
    assert forall l: nat | l in k.holders :: Owners(k, l) == {};
    assert forall s | s in k.semas :: QueueOk(k, s, k.semas[s].waiters);
    assert forall t: nat :: SleepsIn(k.sleepers, t) <==> OnSleep(k, t);
  }

  /** From boot on, in every run. */
  lemma Reachable(k: State, steps: seq<Step>)
    requires Booted(k) && Possible(k, steps)
    ensures Inv(Final(k, steps))
  {
    hide Booted, Inv;
    BootedInv(k);
    RunKeeps(k, steps);
  }

  /** No lost wake-up, from boot on in every run: while threads wait for a semaphore, its value is at most the
      number of threads woken that have yet to try again. */
  lemma NoLostWakeup(k: State, steps: seq<Step>, s: SemaId)
    requires Booted(k) && Possible(k, steps) && s in Final(k, steps).semas
    ensures var n := Final(k, steps); n.semas[s].waiters != [] ==> n.semas[s].value <= |Woken(n, s)|
  {
    hide Booted, Placed, LocksOk, Final, Possible;
    Reachable(k, steps);
    assert SemaOk(Final(k, steps), s);
  }

  /** From boot on in every run, a lock has at most one owner and a semaphore value of 0 or 1. */
  lemma LocksExclude(k: State, steps: seq<Step>, l: nat)
    requires Booted(k) && Possible(k, steps) && l in Final(k, steps).holders
    ensures var n := Final(k, steps);
      OfLock(l) in n.semas && n.semas[OfLock(l)].value <= 1 && |Owners(n, l)| == 1 - n.semas[OfLock(l)].value
  {
    hide Booted, Placed, SemasOk, Final, Possible;
    Reachable(k, steps);
    assert LockOk(Final(k, steps), l);
  }

  // ----- exited threads -----

  ghost predicate Exited(k: State, t: nat)
  {
    t in k.status && k.status[t] == Dying
  }

  lemma {:induction false} StaysExitedThrough(k: State, t: nat)
    requires SleepersWakeable(k) && Exited(k, t)
    ensures Exited(WakeDue(k), t)
    decreases |k.sleepers|
  {
    if k.sleepers != [] && k.sleepers[0].wake <= k.ticks {
      StaysExitedThrough(WakeFirst(k), t);
    }
  }

  /** A thread that has exited neither runs nor is ready. */
  lemma NeverScheduled(k: State, t: nat)
    requires Inv(k) && Exited(k, t)
    ensures k.running != t && t !in k.ready && t != IDLE
  {
    assert ThreadOk(k, Some(k.running), t);
    assert t in k.ready <==> OnReady(k, t);
  }

  lemma ExitedOnTick(k: State, t: nat)
    requires Inv(k) && Unblockable(k) && Exited(k, t)
    ensures Exited(Tick(k), t)
  {
    hide Inv, SleepersWakeable, WakeDue;
    LaterKept(k);
    WakesExactlyDue(Later(k));
    StaysExitedThrough(Later(k), t);
    NeverScheduled(WakeDue(Later(k)), t);
  }

  lemma ExitedStep(k: State, a: Step, t: nat)
    requires Inv(k) && Enabled(k, a) && Unblockable(k) && Exited(k, t)
    ensures Exited(Next(k, a), t)
  {
    hide Inv, SleepersWakeable, Tick;
    if a.TimerTick? {
      ExitedOnTick(k, t);
    } else {
      NeverScheduled(k, t);
    }
  }

  /** thread_exit is for good: in every run a thread that has exited never runs again. */
  lemma {:induction false} ExitIsFinal(k: State, steps: seq<Step>, t: nat)
    requires Inv(k) && Possible(k, steps) && Exited(k, t)
    ensures Exited(Final(k, steps), t) && Final(k, steps).running != t && t !in Final(k, steps).ready
    decreases |steps|
  {
    hide Inv, Unblockable, Next, Enabled, Exited;
    if steps == [] {
      NeverScheduled(k, t);
    } else {
      StepKeeps(k, steps[0]);
      ExitedStep(k, steps[0], t);
      ExitIsFinal(Next(k, steps[0]), steps[1..], t);
    }
  }

  // ----- conservation -----

  /** The step ups the semaphore: sema_up itself, or the end of a lock_release. */
  predicate Ups(k: State, a: Step, s: SemaId)
    requires Enabled(k, a)
  {
    match a
    case SemaUp(n) => s == Plain(n)
    case FinishRelease => s == OfLock(k.pc[k.running].l)
    case _ => false
  }

  /** The step completes a down of the semaphore. */
  predicate CompletesDown(k: State, a: Step, s: SemaId)
    requires Enabled(k, a) && s in k.semas
  {
    && k.semas[s].value > 0
    && match a
       case Down(n) => s == Plain(n)
       case TryDown(n) => s == Plain(n)
       case Retry => s == k.pc[k.running].s
       case Acquire(l) => s == OfLock(l) && k.holders[l] != Some(k.running)
       case TryAcquire(l) => s == OfLock(l)
       case _ => false
  }

  lemma ValueStep(k: State, a: Step, s: SemaId)
    requires Inv(k) && Enabled(k, a) && Unblockable(k) && s in k.semas
    ensures var n := Next(k, a);
      && s in n.semas
      && n.semas[s].value + (if CompletesDown(k, a, s) then 1 else 0) == k.semas[s].value + (if Ups(k, a, s) then 1 else 0)
  {
    hide Inv, Tick, SleepersWakeable, Schedule;
    if a.TimerTick? {
      TickSemas(k);
    } else {
      ScheduleSemas();
    }
  }

  lemma TickSemas(k: State)
    requires Inv(k) && Unblockable(k)
    ensures Tick(k).semas == k.semas
  {
    hide Inv, WakeDue, SleepersWakeable;
    LaterKept(k);
    WakesExactlyDue(Later(k));
  }

  lemma ScheduleSemas()
    ensures forall k: State :: Schedule(k).semas == k.semas
  {
  }

  ghost function UpCount(k: State, steps: seq<Step>, s: SemaId): (n: nat)
    requires Possible(k, steps)
    decreases |steps|
  {
    if steps == [] then 0 else
    (if Ups(k, steps[0], s) then 1 else 0) + UpCount(Next(k, steps[0]), steps[1..], s)
  }

  ghost function DownCount(k: State, steps: seq<Step>, s: SemaId): (n: nat)
    requires Possible(k, steps)
    decreases |steps|
  {
    if steps == [] then 0 else
    (if s in k.semas && CompletesDown(k, steps[0], s) then 1 else 0) + DownCount(Next(k, steps[0]), steps[1..], s)
  }

  /** In every run, for every semaphore, those inside locks included: value plus completed downs equals
      initial value plus ups. */
  lemma {:induction false} Conservation(k: State, steps: seq<Step>, s: SemaId)
    requires Inv(k) && Possible(k, steps) && s in k.semas
    ensures s in Final(k, steps).semas
    ensures Final(k, steps).semas[s].value + DownCount(k, steps, s) == k.semas[s].value + UpCount(k, steps, s)
    decreases |steps|
  {
    hide Inv, Unblockable, Next, Enabled, CompletesDown, Ups;
    if steps != [] {
      StepKeeps(k, steps[0]);
      ValueStep(k, steps[0], s);
      Conservation(Next(k, steps[0]), steps[1..], s);
    }
  }

  // ----- bounded waiting -----

  /** The step calls schedule. */
  predicate Schedules(k: State, a: Step)
    requires Enabled(k, a)
  {
    match a
    case Down(n) => k.semas[Plain(n)].value == 0
    case Retry => k.semas[k.pc[k.running].s].value == 0
    case Acquire(l) => k.holders[l] != Some(k.running) && k.semas[OfLock(l)].value == 0
    case YieldCpu => true
    case TimerTick => k.threadTicks + 1 >= TIME_SLICE
    case SleepFor(_) => true
    case Exit => true
    case IdleBlock => true
    case _ => false
  }

  /** From k to n, the ready list moved along by one, or only grew at the end. */
  ghost predicate Moved(k: State, n: State, scheduled: bool, i: nat)
    requires i < |k.ready|
  {
    if !scheduled then n.running == k.running && i < |n.ready| && n.ready[i] == k.ready[i]
    else if i == 0 then n.running == k.ready[0]
    else i - 1 < |n.ready| && n.ready[i - 1] == k.ready[i]
  }

  lemma QueueMovesOnTick(k: State, i: nat)
    requires Inv(k) && Unblockable(k) && i < |k.ready|
    ensures Moved(k, Tick(k), k.threadTicks + 1 >= TIME_SLICE, i)
  {
    hide Inv, WakeDue, SleepersWakeable;
    LaterKept(k);
    WakesExactlyDue(Later(k));
    var w := WakeDue(Later(k));
    assert i < |w.ready| && w.ready[i] == k.ready[i] && w.ready[0] == k.ready[0];
  }

  /** A step moves the ready list along by one if it schedules, and otherwise only adds at the end. */
  lemma QueueMoves(k: State, a: Step, i: nat)
    requires Inv(k) && Enabled(k, a) && Unblockable(k) && i < |k.ready|
    ensures Moved(k, Next(k, a), Schedules(k, a), i)
  {
    hide Inv, Tick, SleepersWakeable;
    if a.TimerTick? {
      hide Moved;
      QueueMovesOnTick(k, i);
    }
  }

  /** How often the run calls schedule. */
  ghost function ScheduleCount(k: State, steps: seq<Step>): (n: nat)
    requires Possible(k, steps)
    decreases |steps|
  {
    if steps == [] then 0 else
    (if Schedules(k, steps[0]) then 1 else 0) + ScheduleCount(Next(k, steps[0]), steps[1..])
  }

  /** Until schedule has been called i + 1 times, the thread at index i has moved up once per call. */
  lemma {:induction false} MovesUp(k: State, steps: seq<Step>, i: nat)
    requires Inv(k) && Possible(k, steps) && i < |k.ready| && ScheduleCount(k, steps) <= i
    ensures var n, c := Final(k, steps), ScheduleCount(k, steps); i - c < |n.ready| && n.ready[i - c] == k.ready[i]
    decreases |steps|
  {
    hide Inv, Unblockable, Next, Enabled, Schedules;
    if steps != [] {
      StepKeeps(k, steps[0]);
      QueueMoves(k, steps[0], i);
      MovesUp(Next(k, steps[0]), steps[1..], if Schedules(k, steps[0]) then i - 1 else i);
    }
  }

  /** Bounded waiting: the thread at index i is dispatched by exactly the (i + 1)th call of schedule. */
  lemma BoundedWaiting(k: State, steps: seq<Step>, a: Step, i: nat)
    requires Inv(k) && Possible(k, steps) && i < |k.ready| && ScheduleCount(k, steps) == i
    requires Enabled(Final(k, steps), a) && Schedules(Final(k, steps), a)
    ensures Unblockable(Final(k, steps)) && Next(Final(k, steps), a).running == k.ready[i]
  {
    hide Inv, Unblockable, Next, Enabled, Schedules;
    RunKeeps(k, steps);
    MovesUp(k, steps, i);
    QueueMoves(Final(k, steps), a, 0);
  }

  // ----- time slices -----

  ghost function TickCount(steps: seq<Step>): (n: nat)
  {
    if steps == [] then 0 else (if steps[0].TimerTick? then 1 else 0) + TickCount(steps[1..])
  }

  lemma SliceStep(k: State, a: Step)
    requires Inv(k) && Enabled(k, a) && Unblockable(k) && k.threadTicks < TIME_SLICE
    ensures var n := Next(k, a);
      && n.threadTicks < TIME_SLICE
      && (if a.TimerTick? then 1 else 0) + k.threadTicks <= (if Schedules(k, a) then TIME_SLICE else 0) + n.threadTicks
  {
    hide Inv, WakeDue, SleepersWakeable;
    if a.TimerTick? {
      LaterKept(k);
      WakesExactlyDue(Later(k));
    }
  }

  /** Every time slice ends in a call of schedule. */
  lemma {:induction false} SlicesEnd(k: State, steps: seq<Step>)
    requires Inv(k) && Possible(k, steps) && k.threadTicks < TIME_SLICE
    ensures TickCount(steps) + k.threadTicks <= TIME_SLICE * ScheduleCount(k, steps) + Final(k, steps).threadTicks
    ensures Final(k, steps).threadTicks < TIME_SLICE
    decreases |steps|
  {
    hide Inv, Unblockable, Next, Enabled, Schedules;
    if steps != [] {
      StepKeeps(k, steps[0]);
      SliceStep(k, steps[0]);
      SlicesEnd(Next(k, steps[0]), steps[1..]);
    }
  }

  /** A timer interrupt takes the processor from the running thread exactly at the end of its time slice of four ticks,
      and then for the first ready thread. */
  lemma SliceExactly(k: State)
    requires Inv(k)
    ensures SleepersWakeable(k) && var n := Tick(k);
      && (k.threadTicks + 1 < 4 ==> n.running == k.running && n.threadTicks == k.threadTicks + 1)
      && (k.threadTicks + 1 >= 4 ==> n.threadTicks == 0 && (k.ready != [] ==> n.running == k.ready[0]))
  {
    hide Inv, WakeDue, SleepersWakeable;
    LaterKept(k);
    WakesExactlyDue(Later(k));
    var w := WakeDue(Later(k));
    assert k.ready != [] ==> w.ready != [] && w.ready[0] == k.ready[0];
  }

  /** No step but timer interrupts calls schedule. */
  ghost predicate Undisturbed(k: State, steps: seq<Step>)
    requires Possible(k, steps)
    decreases |steps|
  {
    steps == [] || ((Schedules(k, steps[0]) ==> steps[0].TimerTick?) && Undisturbed(Next(k, steps[0]), steps[1..]))
  }

  lemma KeepsRunning(k: State, a: Step)
    requires Inv(k) && Enabled(k, a) && Unblockable(k) && !Schedules(k, a)
    ensures Next(k, a).running == k.running && Next(k, a).threadTicks == k.threadTicks + if a.TimerTick? then 1 else 0
  {
    hide Inv, Tick, SleepersWakeable;
    if a.TimerTick? {
      SliceExactly(k);
    }
  }

  /** A thread that does not give the processor up keeps it for the whole of its time slice. */
  lemma {:induction false} NotPreemptedEarly(k: State, steps: seq<Step>)
    requires Inv(k) && Possible(k, steps) && Undisturbed(k, steps) && k.threadTicks + TickCount(steps) < 4
    ensures Final(k, steps).running == k.running && ScheduleCount(k, steps) == 0
    decreases |steps|
  {
    hide Inv, Unblockable, Next, Enabled;
    if steps != [] {
      StepKeeps(k, steps[0]);
      KeepsRunning(k, steps[0]);
      NotPreemptedEarly(Next(k, steps[0]), steps[1..]);
    }
  }

  /** If schedule is called at least i + 1 times, the (i + 1)th call dispatches the thread at index i. */
  lemma {:induction false} DispatchedBy(k: State, steps: seq<Step>, i: nat) returns (j: nat)
    requires Inv(k) && Possible(k, steps) && i < |k.ready| && ScheduleCount(k, steps) >= i + 1
    ensures j <= |steps| && Possible(k, steps[..j]) && ScheduleCount(k, steps[..j]) == i + 1
    ensures Final(k, steps[..j]).running == k.ready[i]
    decreases |steps|
  {
    hide Inv, Unblockable, Next, Enabled, Schedules;
    StepKeeps(k, steps[0]);
    QueueMoves(k, steps[0], i);
    var n := Next(k, steps[0]);
    if Schedules(k, steps[0]) && i == 0 {
      j := 1;
      assert steps[..1] == [steps[0]] && steps[..1][1..] == [];
    } else {
      var rest := DispatchedBy(n, steps[1..], if Schedules(k, steps[0]) then i - 1 else i);
      j := rest + 1;
      assert steps[..j][0] == steps[0] && steps[..j][1..] == steps[1..][..rest];
    }
  }

  /** Within 4 * (i + 1) timer ticks the thread at index i has been dispatched, by the (i + 1)th call. */
  lemma DispatchedInTime(k: State, steps: seq<Step>, i: nat) returns (j: nat)
    requires Inv(k) && Possible(k, steps) && k.threadTicks < TIME_SLICE && i < |k.ready|
    requires TickCount(steps) >= TIME_SLICE * (i + 1)
    ensures j <= |steps| && Possible(k, steps[..j]) && ScheduleCount(k, steps[..j]) == i + 1
    ensures Final(k, steps[..j]).running == k.ready[i]
  {
    hide Inv, Possible, ScheduleCount, Final, TickCount;
    SlicesEnd(k, steps);
    j := DispatchedBy(k, steps, i);
  }
}
