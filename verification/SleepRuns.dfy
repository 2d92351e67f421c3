/** timer_sleep over whole runs (src/devices/timer.c:90-117, 191-203): a thread stays on the sleep list until the
    tick it asked for and is made ready by exactly that tick. */
module SleepRuns {
  import opened Options
  import opened SequenceSort
  import opened Kernel
  import opened KernelInvariant
  import opened AlarmClock
  import opened KernelRuns

  /** The clock counts the timer interrupts. */
  lemma TicksStep(k: State, a: Step)
    requires Inv(k) && Enabled(k, a) && Unblockable(k)
    ensures Next(k, a).ticks == k.ticks + if a.TimerTick? then 1 else 0
  {
    hide Inv, Tick, SleepersWakeable;
    if a.TimerTick? {
      TickKeeps(k);
    }
  }

  /** The tick on which a thread that sleeps for n ticks from tick now is woken: a request for no time or less
      lasts until the next tick. */
  function WakeTick(now: int, n: int): (w: int)
    ensures w > now && (n > 0 ==> w == now + n)
  {
    if n > 0 then now + n else now + 1
  }

  ghost predicate Asleep(k: State, x: Sleeper)
  {
    x in k.sleepers
  }

  /** The thread is ready or already running. */
  ghost predicate Awake(k: State, t: nat)
  {
    !SleepsIn(k.sleepers, t) && (t in k.ready || k.running == t)
  }

  /** No step other than the tick that makes it due takes a sleeper off the list. */
  lemma SleeperStays(k: State, a: Step, x: Sleeper)
    requires Inv(k) && Enabled(k, a) && Unblockable(k) && Asleep(k, x)
    requires !a.TimerTick? || k.ticks + 1 < x.wake
    ensures Asleep(Next(k, a), x)
  {
    hide Inv, Tick, SleepersWakeable, InsertOrdered;
    if a.TimerTick? {
      NotYetDue(k, x);
    } else if a.SleepFor? {
      InsertKeeps(k.sleepers, Sleeper(k.running, k.ticks + a.ticks, k.arrivals), x);
    }
  }

  lemma InsertKeeps(l: seq<Sleeper>, e: Sleeper, x: Sleeper)
    requires x in l
    ensures x in InsertOrdered(WakesBefore, l, e)
  {
    hide Slot;
  }

  lemma NotYetDue(k: State, x: Sleeper)
    requires Inv(k) && SleepersWakeable(k) && Asleep(k, x) && k.ticks + 1 < x.wake
    ensures Asleep(Tick(k), x)
  {
    hide Inv, SleepersWakeable, WakeDue, CountTick;
    LaterKept(k);
    WakesExactlyDue(Later(k));
    var w := WakeDue(Later(k));
    var d := DueCount(k.sleepers, k.ticks + 1);
    var i :| 0 <= i < |k.sleepers| && k.sleepers[i] == x;
    assert i >= d && w.sleepers[i - d] == x;
    CountTickKept(w);
  }

  /** The tick that makes a sleeper due takes it off the list and makes its thread ready. */
  lemma DueWakes(k: State, x: Sleeper)
    requires Inv(k) && SleepersWakeable(k) && Asleep(k, x) && x.wake <= k.ticks + 1
    ensures Awake(Tick(k), x.tid)
  {
    hide Inv, SleepersWakeable, WakeDue, CountTick;
    LaterKept(k);
    WakesExactlyDue(Later(k));
    var w := WakeDue(Later(k));
    var d := DueCount(k.sleepers, k.ticks + 1);
    var i :| 0 <= i < |k.sleepers| && k.sleepers[i] == x;
    assert i < d && w.ready[|k.ready| + i] == x.tid;
    ReadyNotAsleep(w, x.tid);
    StillReady(w, |k.ready| + i);
  }

  /** Counting the tick may dispatch the first ready thread. */
  lemma StillReady(k: State, i: nat)
    requires i < |k.ready|
    ensures var n := CountTick(k); n.sleepers == k.sleepers && (k.ready[i] in n.ready || n.running == k.ready[i])
  {
    var n := CountTick(k);
    if k.threadTicks + 1 >= TIME_SLICE && i > 0 {
      assert n.ready[i - 1] == k.ready[i];
    }
  }

  lemma ReadyNotAsleep(k: State, t: nat)
    requires Inv(k) && t in k.ready
    ensures !SleepsIn(k.sleepers, t)
  {
    OneList(k, t);
  }

  /** The entry of a thread that has just gone to sleep. */
  lemma FallsAsleep(k: State, n: int)
    requires Inv(k) && Enabled(k, SleepFor(n))
    ensures Unblockable(k) && Asleep(Next(k, SleepFor(n)), Sleeper(k.running, k.ticks + n, k.arrivals))
    ensures Next(k, SleepFor(n)).ticks == k.ticks
  {
    hide Inv;
    RunningFacts(k);
    hide Slot;
  }

  lemma {:induction false} StaysAsleep(k: State, steps: seq<Step>, x: Sleeper, w: int)
    requires Inv(k) && Possible(k, steps) && Asleep(k, x) && w >= x.wake
    requires k.ticks < w && (w == x.wake || w == k.ticks + 1)
    ensures Final(k, steps).ticks == k.ticks + TickCount(steps)
    ensures Final(k, steps).ticks < w ==> Asleep(Final(k, steps), x)
    decreases |steps|
  {
    hide Inv, Unblockable, Next, Enabled, Asleep;
    if steps != [] {
      var m := Next(k, steps[0]);
      StepKeeps(k, steps[0]);
      TicksStep(k, steps[0]);
      if m.ticks < w {
        SleeperStays(k, steps[0], x);
        StaysAsleep(m, steps[1..], x, w);
      } else {
        TicksCount(m, steps[1..]);
      }
    }
  }

  lemma {:induction false} TicksCount(k: State, steps: seq<Step>)
    requires Inv(k) && Possible(k, steps)
    ensures Final(k, steps).ticks == k.ticks + TickCount(steps)
    decreases |steps|
  {
    hide Inv, Unblockable, Next, Enabled;
    if steps != [] {
      StepKeeps(k, steps[0]);
      TicksStep(k, steps[0]);
      TicksCount(Next(k, steps[0]), steps[1..]);
    }
  }

  /** A thread that goes to sleep for n ticks stays on the sleep list, with the wake-up time it asked for, in
      every run up to the tick before the one it waits for; and that tick, whenever it comes, makes it ready. */
  lemma SleepsExactly(k: State, n: int, steps: seq<Step>)
    requires Inv(k) && Enabled(k, SleepFor(n)) && Unblockable(k) && Possible(Next(k, SleepFor(n)), steps)
    ensures var f := Final(Next(k, SleepFor(n)), steps); var w := WakeTick(k.ticks, n);
      && f.ticks == k.ticks + TickCount(steps)
      && (f.ticks < w ==> Asleep(f, Sleeper(k.running, k.ticks + n, k.arrivals)))
      && (f.ticks == w - 1 && Enabled(f, TimerTick) ==>
            Unblockable(f) && Next(f, TimerTick).ticks == w && Awake(Next(f, TimerTick), k.running))
  {
    hide Inv, Unblockable, Enabled, Final, Possible, Asleep, Awake, Tick;
    var m, w := Next(k, SleepFor(n)), WakeTick(k.ticks, n);
    var x := Sleeper(k.running, k.ticks + n, k.arrivals);
    FallsAsleep(k, n);
    StepKeeps(k, SleepFor(n));
    StaysAsleep(m, steps, x, w);
    var f := Final(m, steps);
    RunKeeps(m, steps);
    if f.ticks == w - 1 && Enabled(f, TimerTick) {
      DueAtTick(f, x);
    }
  }

  lemma DueAtTick(f: State, x: Sleeper)
    requires Inv(f) && Enabled(f, TimerTick) && Asleep(f, x) && x.wake <= f.ticks + 1
    ensures Unblockable(f) && Next(f, TimerTick).ticks == f.ticks + 1 && Awake(Next(f, TimerTick), x.tid)
  {
    hide Inv, Asleep, Awake, SleepersWakeable, Tick;
    RunningFacts(f);
    TicksStep(f, TimerTick);
    DueWakes(f, x);
  }
}
