/** Threads, semaphores, locks and the alarm clock as a step machine (src/threads/thread.c:134-363,
    558-634, src/threads/synch.c:60-251, src/devices/timer.c:90-117, 191-203). Each region that runs with
    interrupts off is one step. */
module Kernel {
  import opened Options
  import opened SequenceSort

  const IDLE: nat := 0
  const TIME_SLICE: nat := 4

  datatype Status = Running | Ready | Blocked | Dying

  /** A plain semaphore, or the one inside a lock. */
  datatype SemaId = Plain(n: nat) | OfLock(l: nat)

  /** How far a thread is in an operation that spans several steps: in the loop of sema_down, asleep in
      timer_sleep, past the sema_down of lock_acquire but not yet recorded as the holder, or no longer the
      holder but not yet past the sema_up of lock_release. */
  datatype Pc = Free | InDown(s: SemaId) | Sleeping | Acquired(l: nat) | Releasing(l: nat)

  datatype Sema = Sema(value: nat, waiters: seq<nat>)

  /** A sleeping thread, its wake-up time (blocked_ticks) and when it joined the list. */
  datatype Sleeper = Sleeper(tid: nat, wake: int, arrival: nat)

  datatype State = State(
    status: map<nat, Status>,
    pc: map<nat, Pc>,
    running: nat,
    ready: seq<nat>,
    sleepers: seq<Sleeper>,
    arrivals: nat,
    semas: map<SemaId, Sema>,
    holders: map<nat, Option<nat>>,
    ticks: int,
    threadTicks: nat)

  /** compare_thread. */
  predicate WakesBefore(a: Sleeper, b: Sleeper)
  {
    a.wake < b.wake
  }

  // ----- thread.c -----

  /** next_thread_to_run, schedule and thread_schedule_tail. */
  function Schedule(k: State): (n: State)
  {
    var next := if k.ready == [] then IDLE else k.ready[0];
    var rest := if k.ready == [] then [] else k.ready[1..];
    k.(running := next, ready := rest, status := k.status[next := Running], threadTicks := 0)
  }

  /** thread_block of the running thread. */
  function Block(k: State, pc: Pc): (n: State)
  {
    Schedule(Stopped(k, pc))
  }

  /** The running thread is blocked and nobody is dispatched yet. */
  function Stopped(k: State, pc: Pc): (n: State)
  {
    k.(status := k.status[k.running := Blocked], pc := k.pc[k.running := pc])
  }

  /** thread_unblock; callers must pass a blocked thread. */
  function Unblock(k: State, t: nat): (n: State)
    requires t in k.status && k.status[t] == Blocked
  {
    k.(status := k.status[t := Ready], ready := k.ready + [t])
  }

  /** thread_yield. */
  function Yield(k: State): (n: State)
  {
    var ready := if k.running != IDLE then k.ready + [k.running] else k.ready;
    Schedule(k.(status := k.status[k.running := Ready], ready := ready))
  }

  // ----- synch.c -----

  function AfterDown(s: SemaId): (pc: Pc)
  {
    match s
    case Plain(_) => Free
    case OfLock(l) => Acquired(l)
  }

  /** One pass through the loop of sema_down by the running thread. */
  function DownOnce(k: State, s: SemaId): (n: State)
    requires s in k.semas
  {
    var q := k.semas[s];
    if q.value == 0 then
      Block(k.(semas := k.semas[s := q.(waiters := q.waiters + [k.running])]), InDown(s))
    else
      k.(semas := k.semas[s := q.(value := q.value - 1)], pc := k.pc[k.running := AfterDown(s)])
  }

  /** sema_up: wakes the first waiter and raises the value, which the waiter has yet to take. */
  function Up(k: State, s: SemaId): (n: State)
    requires s in k.semas && (k.semas[s].waiters != [] ==> Wakeable(k, k.semas[s].waiters[0]))
  {
    var q := k.semas[s];
    if q.waiters == [] then
      k.(semas := k.semas[s := q.(value := q.value + 1)])
    else
      Unblock(k.(semas := k.semas[s := q.(waiters := q.waiters[1..], value := q.value + 1)]), q.waiters[0])
  }

  predicate Wakeable(k: State, t: nat)
  {
    t in k.status && k.status[t] == Blocked
  }

  // ----- timer.c -----

  /** timer_sleep: joins the sleep list and blocks. */
  function Sleep(k: State, n: int): (m: State)
  {
    Block(Bedded(k, n), Sleeping)
  }

  function Bedded(k: State, n: int): (m: State)
  {
    var sleeper := Sleeper(k.running, k.ticks + n, k.arrivals);
    k.(sleepers := InsertOrdered(WakesBefore, k.sleepers, sleeper), arrivals := k.arrivals + 1)
  }

  ghost predicate SleepersWakeable(k: State)
  {
    (forall i | 0 <= i < |k.sleepers| :: Wakeable(k, k.sleepers[i].tid))
    && forall i, j | 0 <= i < j < |k.sleepers| :: k.sleepers[i].tid != k.sleepers[j].tid
  }

  /** One turn of the wake-up loop. */
  function WakeFirst(k: State): (n: State)
    requires k.sleepers != [] && Wakeable(k, k.sleepers[0].tid)
  {
    var t := k.sleepers[0].tid;
    Unblock(k.(sleepers := k.sleepers[1..], pc := k.pc[t := Free]), t)
  }

  /** repeated_check_blocked_list: wakes sleepers from the front until one is not due. */
  function WakeDue(k: State): (n: State)
    requires SleepersWakeable(k)
    decreases |k.sleepers|
  {
    if k.sleepers == [] || k.ticks < k.sleepers[0].wake then k else WakeDue(WakeFirst(k))
  }

  function Later(k: State): (n: State)
  {
    k.(ticks := k.ticks + 1)
  }

  /** thread_tick and the yield on return from the interrupt. */
  function CountTick(k: State): (n: State)
  {
    var t := k.(threadTicks := k.threadTicks + 1);
    if t.threadTicks >= TIME_SLICE then Yield(t) else t
  }

  /** timer_interrupt. */
  function Tick(k: State): (n: State)
    requires SleepersWakeable(k)
  {
    CountTick(WakeDue(Later(k)))
  }

  // ----- steps -----

  datatype Step =
    | Down(n: nat)        // sema_down by the running thread
    | TryDown(n: nat)     // sema_try_down, also from an interrupt handler
    | SemaUp(n: nat)      // sema_up, also from an interrupt handler
    | Retry               // the running thread was woken inside sema_down
    | Acquire(l: nat)     // lock_acquire up to the end of its sema_down
    | TryAcquire(l: nat)  // lock_try_acquire, likewise
    | TakeHolder          // lock_acquire records the holder
    | Release(l: nat)     // lock_release clears the holder
    | FinishRelease       // lock_release ups the semaphore
    | YieldCpu | TimerTick | SleepFor(ticks: int) | Create(t: nat) | Exit | IdleBlock

  /** Interrupts are on: the running thread is not inside sema_down. */
  predicate InterruptsOn(k: State)
  {
    k.running in k.pc && !k.pc[k.running].InDown?
  }

  predicate AtRest(k: State)
  {
    k.running in k.pc && k.pc[k.running] == Free
  }

  /** What the callers of each operation must respect. */
  predicate Enabled(k: State, a: Step)
  {
    match a
    case Down(n) => AtRest(k) && k.running != IDLE && Plain(n) in k.semas
    case TryDown(n) => InterruptsOn(k) && Plain(n) in k.semas
    case SemaUp(n) => InterruptsOn(k) && Plain(n) in k.semas
    case Retry => k.running in k.pc && k.pc[k.running].InDown? && k.pc[k.running].s in k.semas
    case Acquire(l) => AtRest(k) && k.running != IDLE && l in k.holders && OfLock(l) in k.semas
    case TryAcquire(l) =>
      AtRest(k) && k.running != IDLE && l in k.holders && OfLock(l) in k.semas && k.holders[l] != Some(k.running)
    case TakeHolder => k.running in k.pc && k.pc[k.running].Acquired? && k.pc[k.running].l in k.holders
    case Release(l) => AtRest(k) && k.running != IDLE && l in k.holders && OfLock(l) in k.semas && k.holders[l] == Some(k.running)
    case FinishRelease =>
      && k.running in k.pc && k.pc[k.running].Releasing? && OfLock(k.pc[k.running].l) in k.semas
    case YieldCpu => AtRest(k)
    case TimerTick => InterruptsOn(k)
    case SleepFor(_) => AtRest(k) && k.running != IDLE
    case Create(t) => AtRest(k) && t !in k.status && t !in k.pc
    case Exit => AtRest(k) && k.running != IDLE
    case IdleBlock => AtRest(k) && k.running == IDLE
  }

  /** First waiters are blocked and sleepers are blocked, as the assertion of thread_unblock demands. */
  ghost predicate Unblockable(k: State)
  {
    && SleepersWakeable(k)
    && forall s | s in k.semas && k.semas[s].waiters != [] :: Wakeable(k, k.semas[s].waiters[0])
  }

  function TakeValue(k: State, s: SemaId, pc: Pc): (n: State)
    requires s in k.semas && k.semas[s].value > 0
  {
    var q := k.semas[s];
    k.(semas := k.semas[s := q.(value := q.value - 1)], pc := k.pc[k.running := pc])
  }

  function Next(k: State, a: Step): (n: State)
    requires Enabled(k, a) && Unblockable(k)
  {
    match a
    case Down(n) => DownOnce(k, Plain(n))
    case TryDown(n) => if k.semas[Plain(n)].value > 0 then TakeValue(k, Plain(n), k.pc[k.running]) else k
    case SemaUp(n) => Up(k, Plain(n))
    case Retry => DownOnce(k, k.pc[k.running].s)
    case Acquire(l) => if k.holders[l] == Some(k.running) then k else DownOnce(k, OfLock(l))
    case TryAcquire(l) => if k.semas[OfLock(l)].value > 0 then TakeValue(k, OfLock(l), Acquired(l)) else k
    case TakeHolder =>
      k.(holders := k.holders[k.pc[k.running].l := Some(k.running)], pc := k.pc[k.running := Free])
    case Release(l) => k.(holders := k.holders[l := None], pc := k.pc[k.running := Releasing(l)])
    case FinishRelease =>
      var l := k.pc[k.running].l;
      Up(k.(pc := k.pc[k.running := Free]), OfLock(l))
    case YieldCpu => Yield(k)
    case TimerTick => Tick(k)
    case SleepFor(n) => Sleep(k, n)
    case Create(t) => Unblock(k.(status := k.status[t := Blocked], pc := k.pc[t := Free]), t)
    case Exit => Schedule(k.(status := k.status[k.running := Dying]))
    case IdleBlock => Block(k, Free)
  }
}
