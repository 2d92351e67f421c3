/** Nested use of locks (src/threads/synch.c:192-240). A thread that holds a lock may acquire it again, which
    returns at once, and its first release frees the lock. So exclusion between an outermost acquire and the
    release that matches it is not automatic: here is what it depends on. */
module NestedLocks {
  import opened Options
  import opened Kernel
  import opened KernelInvariant
  import opened KernelRuns

  // ----- completed acquires minus releases -----

  /** What a step adds to the acquires of lock l by thread t that have returned and await their release. */
  function Delta(k: State, a: Step, t: nat, l: nat): (d: int)
    requires Enabled(k, a)
  {
    if k.running != t then 0 else
    match a
    case TakeHolder => if k.pc[t].l == l then 1 else 0
    case Acquire(m) => if m == l && k.holders[l] == Some(t) then 1 else 0
    case Release(m) => if m == l then -1 else 0
    case _ => 0
  }

  ghost function Depth(k: State, steps: seq<Step>, t: nat, l: nat): (d: int)
    requires Possible(k, steps)
    decreases |steps|
  {
    if steps == [] then 0 else Delta(k, steps[0], t, l) + Depth(Next(k, steps[0]), steps[1..], t, l)
  }

  /** How a step changes the holder of a lock. */
  lemma HolderStep(k: State, a: Step, l: nat)
    requires Inv(k) && Enabled(k, a) && Unblockable(k) && l in k.holders
    ensures var n := Next(k, a);
      && l in n.holders
      && n.holders[l] == (if a.TakeHolder? && k.pc[k.running].l == l then Some(k.running)
                          else if a == Release(l) then None else k.holders[l])
    ensures a.TakeHolder? && k.pc[k.running].l == l ==> k.holders[l] == None
  {
    hide Inv, Tick, SleepersWakeable, Schedule;
    if a.TimerTick? {
      TickHolders(k);
    } else {
      ScheduleHolders();
      if a.TakeHolder? && k.pc[k.running].l == l {
        NobodyElse(k, l);
      }
    }
  }

  lemma TickHolders(k: State)
    requires Inv(k) && Unblockable(k)
    ensures Tick(k).holders == k.holders
  {
    hide Inv, WakeDue, SleepersWakeable;
    AlarmClock.LaterKept(k);
    AlarmClock.WakesExactlyDue(Later(k));
  }

  lemma ScheduleHolders()
    ensures forall k: State :: Schedule(k).holders == k.holders
  {
  }

  lemma NobodyElse(k: State, l: nat)
    requires Inv(k) && k.running in k.pc && k.pc[k.running] == Acquired(l) && l in k.holders
    ensures k.holders[l] == None
  {
    hide Placed, SemasOk;
    assert LockOk(k, l);
    if k.holders[l].Some? {
      hide LocksOk;
      MutualExclusion(k, l, k.running, k.holders[l].value);
    }
  }

  // ----- prefixes of a run -----

  lemma {:induction false} Prefix(k: State, steps: seq<Step>, j: nat)
    requires Possible(k, steps) && j <= |steps|
    ensures Possible(k, steps[..j])
    decreases |steps|
  {
    hide Unblockable, Next, Enabled;
    if j > 0 {
      Prefix(Next(k, steps[0]), steps[1..], j - 1);
      assert steps[..j][1..] == steps[1..][..j - 1];
    }
  }

  lemma {:induction false} Snoc(k: State, steps: seq<Step>, a: Step)
    requires Possible(k, steps + [a])
    ensures Possible(k, steps) && var f := Final(k, steps);
      && Enabled(f, a) && Unblockable(f) && Final(k, steps + [a]) == Next(f, a)
      && forall t, l :: Depth(k, steps + [a], t, l) == Depth(k, steps, t, l) + Delta(f, a, t, l)
    decreases |steps|
  {
    hide Unblockable, Next, Enabled, Delta;
    var all := steps + [a];
    if steps == [] {
      assert all == [a] && all[1..] == [];
    } else {
      assert all[1..] == steps[1..] + [a];
      Snoc(Next(k, steps[0]), steps[1..], a);
    }
  }

  /** The state after j steps, with what it takes to speak about it. */
  lemma At(k: State, steps: seq<Step>, j: nat)
    requires Possible(k, steps) && j < |steps|
    ensures Possible(k, steps[..j]) && Possible(k, steps[..j + 1]) && var f := Final(k, steps[..j]);
      && Enabled(f, steps[j]) && Unblockable(f) && Final(k, steps[..j + 1]) == Next(f, steps[j])
      && forall t, l :: Depth(k, steps[..j + 1], t, l) == Depth(k, steps[..j], t, l) + Delta(f, steps[j], t, l)
  {
    hide Unblockable, Next, Enabled, Delta, Possible, Final, Depth;
    Prefix(k, steps, j + 1);
    assert steps[..j + 1] == steps[..j] + [steps[j]];
    Snoc(k, steps[..j], steps[j]);
  }

  // ----- a positive count means holding the lock -----

  /** After j steps the holder, if any, has an acquire to release, and nobody has released too much. */
  ghost predicate Counted(k: State, steps: seq<Step>, j: nat, l: nat)
    requires j <= |steps| && Possible(k, steps[..j])
  {
    var f := Final(k, steps[..j]);
    l in f.holders && forall t: nat ::
      Depth(k, steps[..j], t, l) >= 0 && (f.holders[l] == Some(t) ==> Depth(k, steps[..j], t, l) > 0)
  }

  /** After j steps the threads between an acquire of l and its matching release hold l. */
  ghost predicate Exclusive(k: State, steps: seq<Step>, j: nat, l: nat)
  {
    && j <= |steps| && Possible(k, steps[..j]) && l in Final(k, steps[..j]).holders
    && forall t: nat :: Depth(k, steps[..j], t, l) > 0 ==> Final(k, steps[..j]).holders[l] == Some(t)
  }

  /** Step j, if it releases l, releases the only acquire that is open. */
  ghost predicate Matched(k: State, steps: seq<Step>, j: nat, l: nat)
  {
    j < |steps| && Possible(k, steps[..j]) &&
    (steps[j] == Release(l) ==> Depth(k, steps[..j], Final(k, steps[..j]).running, l) == 1)
  }

  /** Step j does not acquire l while holding it. */
  ghost predicate Unnested(k: State, steps: seq<Step>, j: nat, l: nat)
  {
    j < |steps| && Possible(k, steps[..j]) && l in Final(k, steps[..j]).holders &&
    (steps[j] == Acquire(l) ==> Final(k, steps[..j]).holders[l] != Some(Final(k, steps[..j]).running))
  }

  /** One step of the count: it stays positive after a release exactly when it was above one. */
  lemma CountStep(k: State, a: Step, l: nat, d: int, t: nat)
    requires Inv(k) && Enabled(k, a) && Unblockable(k) && l in k.holders
    requires d >= 0 && (k.holders[l] == Some(t) ==> d > 0)
    ensures var n, e := Next(k, a), d + Delta(k, a, t, l);
      && e >= 0 && l in n.holders && (n.holders[l] == Some(t) ==> e > 0)
      && (a == Release(l) && k.running == t ==> n.holders[l] == None && (e > 0 <==> d > 1))
      && ((d > 0 ==> k.holders[l] == Some(t)) && !(a == Release(l) && k.running == t && d > 1) ==>
            (e > 0 ==> n.holders[l] == Some(t)))
  {
    hide Inv, Next, Unblockable;
    HolderStep(k, a, l);
    if a.TakeHolder? {
      Pieces(k);
    }
  }

  lemma Pieces(k: State)
    requires Inv(k)
    ensures k.running in k.pc
  {
  }

  lemma BootedCounts(k: State, steps: seq<Step>, l: nat)
    requires Booted(k) && l in k.holders
    ensures Possible(k, steps[..0]) && Counted(k, steps, 0, l) && Exclusive(k, steps, 0, l)
  {
    assert steps[..0] == [];
  }

  lemma StateOk(k: State, steps: seq<Step>, j: nat)
    requires Booted(k) && Possible(k, steps) && j <= |steps|
    ensures Possible(k, steps[..j]) && Inv(Final(k, steps[..j]))
  {
    hide Booted, Inv, Possible, Final;
    Prefix(k, steps, j);
    Reachable(k, steps[..j]);
  }

  lemma {:induction false} AlwaysCounted(k: State, steps: seq<Step>, j: nat, l: nat)
    requires Booted(k) && Possible(k, steps) && l in k.holders && j <= |steps|
    ensures Possible(k, steps[..j]) && Counted(k, steps, j, l)
    decreases j
  {
    if j == 0 {
      BootedCounts(k, steps, l);
    } else {
      hide Booted, Inv, Possible, Final, Depth, Delta, Next, Enabled, Unblockable;
      AlwaysCounted(k, steps, j - 1, l);
      StateOk(k, steps, j - 1);
      At(k, steps, j - 1);
      var p, q := steps[..j - 1], steps[..j];
      var f := Final(k, p);
      forall t: nat ensures l in Final(k, q).holders && Depth(k, q, t, l) >= 0
                            && (Final(k, q).holders[l] == Some(t) ==> Depth(k, q, t, l) > 0) {
        CountStep(f, steps[j - 1], l, Depth(k, p, t, l), t);
      }
    }
  }

  /** One step further: exclusion survives exactly the steps that are matched. */
  lemma ExclusiveStep(k: State, steps: seq<Step>, j: nat, l: nat)
    requires Booted(k) && Possible(k, steps) && l in k.holders && j < |steps| && Exclusive(k, steps, j, l)
    ensures Matched(k, steps, j, l) <==> Exclusive(k, steps, j + 1, l)
  {
    hide Booted, Inv, Possible, Final, Depth, Delta, Next, Enabled, Unblockable;
    AlwaysCounted(k, steps, j, l);
    StateOk(k, steps, j);
    At(k, steps, j);
    var f := Final(k, steps[..j]);
    forall t: nat ensures var d, e := Depth(k, steps[..j], t, l), Depth(k, steps[..j + 1], t, l);
        && l in Next(f, steps[j]).holders && d >= 0
        && (steps[j] == Release(l) && f.running == t ==> Next(f, steps[j]).holders[l] == None && (e > 0 <==> d > 1))
        && (!(steps[j] == Release(l) && f.running == t && d > 1) ==> (e > 0 ==> Next(f, steps[j]).holders[l] == Some(t))) {
      CountStep(f, steps[j], l, Depth(k, steps[..j], t, l), t);
    }
    if steps[j] == Release(l) {
      ReleaserHolds(f, l);
    }
  }

  lemma ReleaserHolds(k: State, l: nat)
    requires Enabled(k, Release(l))
    ensures l in k.holders && k.holders[l] == Some(k.running)
  {
  }

  /** Exclusion between acquire and matching release, in every run from boot: it holds in all its states exactly
      when every release happens with one acquire open. */
  lemma ExclusionExactly(k: State, steps: seq<Step>, l: nat)
    requires Booted(k) && Possible(k, steps) && l in k.holders
    ensures (forall j: nat | j <= |steps| :: Exclusive(k, steps, j, l)) <==>
            (forall j: nat | j < |steps| :: Matched(k, steps, j, l))
  {
    hide Booted, Possible, Exclusive, Matched;
    if forall j: nat | j < |steps| :: Matched(k, steps, j, l) {
      forall j: nat | j <= |steps| ensures Exclusive(k, steps, j, l) {
        MatchedSoFar(k, steps, j, l);
      }
    }
    if forall j: nat | j <= |steps| :: Exclusive(k, steps, j, l) {
      forall j: nat | j < |steps| ensures Matched(k, steps, j, l) {
        assert Exclusive(k, steps, j, l) && Exclusive(k, steps, j + 1, l);
        ExclusiveStep(k, steps, j, l);
      }
    }
  }

  lemma {:induction false} MatchedSoFar(k: State, steps: seq<Step>, j: nat, l: nat)
    requires Booted(k) && Possible(k, steps) && l in k.holders && j <= |steps|
    requires forall i: nat | i < |steps| :: Matched(k, steps, i, l)
    ensures Exclusive(k, steps, j, l)
  {
    hide Possible, Exclusive, Matched;
    if j == 0 {
      BootedCounts(k, steps, l);
    } else {
      hide Booted;
      MatchedSoFar(k, steps, j - 1, l);
      ExclusiveStep(k, steps, j - 1, l);
    }
  }

  /** A caller that asks lock_held_by_current_thread before each lock_acquire keeps the exclusion: in a run without
      nested acquires the count is one for the holder and zero for all others. */
  lemma {:induction false} UnnestedExclusive(k: State, steps: seq<Step>, j: nat, l: nat)
    requires Booted(k) && Possible(k, steps) && l in k.holders && j <= |steps|
    requires forall i: nat | i < |steps| :: Unnested(k, steps, i, l)
    ensures Exclusive(k, steps, j, l)
    ensures forall t: nat :: Depth(k, steps[..j], t, l) == if Final(k, steps[..j]).holders[l] == Some(t) then 1 else 0
    decreases j
  {
    if j == 0 {
      BootedCounts(k, steps, l);
      assert steps[..0] == [];
    } else {
      hide Booted, Inv, Possible, Final, Depth, Next, Enabled, Unblockable, Delta;
      UnnestedExclusive(k, steps, j - 1, l);
      StateOk(k, steps, j - 1);
      At(k, steps, j - 1);
      var p, q := steps[..j - 1], steps[..j];
      var f := Final(k, p);
      assert Unnested(k, steps, j - 1, l);
      forall t: nat ensures l in Final(k, q).holders && Depth(k, q, t, l) == if Final(k, q).holders[l] == Some(t) then 1 else 0 {
        UnnestedStep(f, steps[j - 1], l, t);
      }
    }
  }

  lemma UnnestedStep(k: State, a: Step, l: nat, t: nat)
    requires Inv(k) && Enabled(k, a) && Unblockable(k) && l in k.holders
    requires a == Acquire(l) ==> k.holders[l] != Some(k.running)
    ensures var n := Next(k, a);
      l in n.holders && (if k.holders[l] == Some(t) then 1 else 0) + Delta(k, a, t, l) == if n.holders[l] == Some(t) then 1 else 0
  {
    hide Inv, Next, Unblockable, Enabled;
    HolderStep(k, a, l);
    if a == Release(l) {
      ReleaserHolds(k, l);
    }
  }

  /** At most one thread is between an acquire of l and its matching release. */
  lemma AtMostOne(k: State, steps: seq<Step>, j: nat, l: nat, t: nat, u: nat)
    requires Exclusive(k, steps, j, l) && Depth(k, steps[..j], t, l) > 0 && Depth(k, steps[..j], u, l) > 0
    ensures t == u
  {
    assert Final(k, steps[..j]).holders[l] == Some(t);
  }

  // ----- the run that breaks it -----

  lemma {:induction false} Joined(k: State, first: seq<Step>, second: seq<Step>)
    requires Possible(k, first) && Possible(Final(k, first), second)
    ensures Possible(k, first + second)
    ensures forall t, l ::
      Depth(k, first + second, t, l) == Depth(k, first, t, l) + Depth(Final(k, first), second, t, l)
    decreases |first|
  {
    hide Unblockable, Next, Enabled, Delta;
    var all := first + second;
    if first == [] {
      assert all == second;
    } else {
      assert all[0] == first[0] && all[1..] == first[1..] + second;
      Joined(Next(k, first[0]), first[1..], second);
    }
  }

  /** A run of one step. */
  lemma One(k: State, a: Step, rest: seq<Step>)
    requires Enabled(k, a) && Unblockable(k) && Possible(Next(k, a), rest)
    ensures Possible(k, [a] + rest)
    ensures forall t, l :: Depth(k, [a] + rest, t, l) == Delta(k, a, t, l) + Depth(Next(k, a), rest, t, l)
    ensures Final(k, [a] + rest) == Final(Next(k, a), rest)
  {
    hide Unblockable, Next, Enabled, Delta;
    assert ([a] + rest)[1..] == rest;
  }

  /** The running thread is free to call, holds the lock, and another thread that is free to call is next. */
  ghost predicate Poised(k: State, l: nat, u: nat)
  {
    && Inv(k) && k.running != IDLE && k.pc[k.running] == Free && l in k.holders && k.holders[l] == Some(k.running)
    && k.ready != [] && k.ready[0] == u && u in k.pc && k.pc[u] == Free
  }

  lemma PoisedFacts(k: State, l: nat, u: nat)
    requires Poised(k, l, u)
    ensures u != IDLE && u != k.running && OfLock(l) in k.semas && k.semas[OfLock(l)].value == 0
  {
    assert OnReady(k, u);
    assert ThreadOk(k, Some(k.running), k.running);
    hide Placed, SemasOk;
    assert LockOk(k, l);
    MutualExclusion(k, l, k.running, k.running);
  }

  /** The lock has no holder and its semaphore the given value; u is next and free to call. */
  ghost predicate Vacated(k: State, l: nat, u: nat, pc: Pc, value: nat)
  {
    && Inv(k) && Unblockable(k) && k.running in k.pc && k.pc[k.running] == pc && l in k.holders && k.holders[l] == None
    && k.ready != [] && k.ready[0] == u && u != k.running && u != IDLE && u in k.pc && k.pc[u] == Free
    && OfLock(l) in k.semas && k.semas[OfLock(l)].value == value
  }

  lemma Vacates(k: State, l: nat, u: nat)
    requires Poised(k, l, u)
    ensures Enabled(k, Release(l)) && Unblockable(k) && Vacated(Next(k, Release(l)), l, u, Releasing(l), 0)
  {
    PoisedFacts(k, l, u);
    hide Inv, Unblockable;
    StepKeeps(k, Release(l));
    RunningFacts(Next(k, Release(l)));
  }

  lemma Frees(k: State, l: nat, u: nat)
    requires Vacated(k, l, u, Releasing(l), 0)
    ensures Enabled(k, FinishRelease) && Vacated(Next(k, FinishRelease), l, u, Free, 1)
  {
    hide Inv, SleepersWakeable;
    StepKeeps(k, FinishRelease);
    hide Unblockable;
    RunningFacts(Next(k, FinishRelease));
  }

  /** The running thread is u, which is free to call, and the lock is free. */
  ghost predicate Unlocked(k: State, l: nat, u: nat)
  {
    && Inv(k) && Unblockable(k) && k.running == u != IDLE && u in k.pc && k.pc[u] == Free && l in k.holders
    && k.holders[l] == None && OfLock(l) in k.semas && k.semas[OfLock(l)].value == 1
  }

  lemma GivesWay(k: State, l: nat, u: nat)
    requires Vacated(k, l, u, Free, 1)
    ensures Enabled(k, YieldCpu) && Unlocked(Next(k, YieldCpu), l, u)
  {
    hide Inv, Unblockable;
    StepKeeps(k, YieldCpu);
    RunningFacts(Next(k, YieldCpu));
  }

  lemma TakesOver(c: State, l: nat, u: nat)
    requires Unlocked(c, l, u)
    ensures Possible(c, [Acquire(l), TakeHolder])
    ensures forall t :: Depth(c, [Acquire(l), TakeHolder], t, l) == if t == u then 1 else 0
  {
    hide Inv, Unblockable;
    StepKeeps(c, Acquire(l));
    var d := Next(c, Acquire(l));
    RunningFacts(d);
    var none: seq<Step> := [];
    assert [TakeHolder] + none == [TakeHolder] && [Acquire(l)] + [TakeHolder] == [Acquire(l), TakeHolder];
    One(d, TakeHolder, none);
    One(c, Acquire(l), [TakeHolder]);
  }

  /** lock_release, a yield, and lock_acquire by the next thread. */
  function Handover(l: nat): (run: seq<Step>)
  {
    [Release(l), FinishRelease, YieldCpu, Acquire(l), TakeHolder]
  }

  /** The next thread gets the lock, whatever the first still has to release. */
  lemma HandoverRun(k: State, l: nat, u: nat)
    requires Poised(k, l, u)
    ensures u != k.running && Possible(k, Handover(l))
    ensures Depth(k, Handover(l), k.running, l) == -1 && Depth(k, Handover(l), u, l) == 1
  {
    hide Unblockable, Next, Enabled, Depth, Possible, Inv, Vacated;
    PoisedFacts(k, l, u);
    Vacates(k, l, u);
    UnlockRun(Next(k, Release(l)), l, u);
    var rest := [FinishRelease, YieldCpu, Acquire(l), TakeHolder];
    One(k, Release(l), rest);
    assert [Release(l)] + rest == Handover(l);
  }

  lemma UnlockRun(a: State, l: nat, u: nat)
    requires Vacated(a, l, u, Releasing(l), 0)
    ensures var run := [FinishRelease, YieldCpu, Acquire(l), TakeHolder];
      Possible(a, run) && forall t :: Depth(a, run, t, l) == if t == u then 1 else 0
  {
    hide Unblockable, Next, Enabled, Depth, Possible, Inv, Vacated, Unlocked;
    Frees(a, l, u);
    VacatedStep(a, l, u, Releasing(l), 0);
    var b := Next(a, FinishRelease);
    GivesWay(b, l, u);
    VacatedStep(b, l, u, Free, 1);
    var c := Next(b, YieldCpu);
    TakesOver(c, l, u);
    var r2 := [Acquire(l), TakeHolder];
    var r3 := [YieldCpu] + r2;
    One(b, YieldCpu, r2);
    One(a, FinishRelease, r3);
    assert [FinishRelease] + r3 == [FinishRelease, YieldCpu, Acquire(l), TakeHolder];
  }

  lemma VacatedStep(k: State, l: nat, u: nat, pc: Pc, value: nat)
    requires Vacated(k, l, u, pc, value)
    ensures Unblockable(k)
  {
  }

  /** Whenever the holder of a lock is about to release it with another thread next in line: after the handover both
      are between an acquire and its matching release exactly when the holder had acquired the lock more than once. */
  lemma NestingBreaksExclusion(k: State, steps: seq<Step>, l: nat, u: nat)
    requires Booted(k) && Possible(k, steps) && l in k.holders && Poised(Final(k, steps), l, u)
    ensures var t := Final(k, steps).running; var all := steps + Handover(l);
      && t != u && Possible(k, all) && Depth(k, all, u, l) > 0
      && (Depth(k, all, t, l) > 0 <==> Depth(k, steps, t, l) > 1)
  {
    hide Booted, Possible, Final, Depth, Poised;
    HandoverRun(Final(k, steps), l, u);
    Joined(k, steps, Handover(l));
    assert steps[..|steps|] == steps;
    AlwaysCounted(k, steps, |steps|, l);
  }

  /** A second thread is created and the first acquires the lock twice. */
  function TwiceAcquired(l: nat, u: nat): (run: seq<Step>)
  {
    [Create(u), Acquire(l), TakeHolder, Acquire(l)]
  }

  /** Thread u is ready behind the running thread, which is at pc; h is recorded as holder of l. */
  ghost predicate Beside(k: State, l: nat, u: nat, t: nat, pc: Pc, h: Option<nat>)
  {
    && Inv(k) && Unblockable(k) && k.running == t != IDLE && t in k.pc && k.pc[t] == pc && l in k.holders && k.holders[l] == h
    && k.ready == [u] && u in k.pc && k.pc[u] == Free && OfLock(l) in k.semas
    && (pc == Free && h == None ==> k.semas[OfLock(l)].value == 1)
  }

  lemma CreateSecond(k: State, l: nat, u: nat)
    requires Booted(k) && l in k.holders && u !in {IDLE, k.running}
    ensures Enabled(k, Create(u)) && Unblockable(k) && Beside(Next(k, Create(u)), l, u, k.running, Free, None)
  {
    BootedInv(k);
    hide Inv, Unblockable;
    StepKeeps(k, Create(u));
    RunningFacts(Next(k, Create(u)));
  }

  lemma FirstAcquire(k: State, l: nat, u: nat, t: nat)
    requires Beside(k, l, u, t, Free, None) && u != t
    ensures Enabled(k, Acquire(l)) && Unblockable(k) && Beside(Next(k, Acquire(l)), l, u, t, Acquired(l), None)
    ensures Delta(k, Acquire(l), t, l) == 0
  {
    hide Inv, Unblockable;
    StepKeeps(k, Acquire(l));
    RunningFacts(Next(k, Acquire(l)));
  }

  lemma FirstHolds(k: State, l: nat, u: nat, t: nat)
    requires Beside(k, l, u, t, Acquired(l), None) && u != t
    ensures Enabled(k, TakeHolder) && Unblockable(k) && Beside(Next(k, TakeHolder), l, u, t, Free, Some(t))
    ensures Delta(k, TakeHolder, t, l) == 1
  {
    hide Inv, Unblockable;
    StepKeeps(k, TakeHolder);
    RunningFacts(Next(k, TakeHolder));
  }

  lemma SecondAcquire(k: State, l: nat, u: nat, t: nat)
    requires Beside(k, l, u, t, Free, Some(t))
    ensures Possible(k, [Acquire(l)]) && Final(k, [Acquire(l)]) == k && Poised(k, l, u)
    ensures Depth(k, [Acquire(l)], t, l) == 1
  {
    hide Inv, Unblockable;
    var none: seq<Step> := [];
    assert [Acquire(l)] + none == [Acquire(l)];
    assert Next(k, Acquire(l)) == k;
    One(k, Acquire(l), none);
  }

  lemma TwiceAcquiredRun(k: State, l: nat, u: nat)
    requires Booted(k) && l in k.holders && u !in {IDLE, k.running}
    ensures Possible(k, TwiceAcquired(l, u)) && Poised(Final(k, TwiceAcquired(l, u)), l, u)
    ensures Final(k, TwiceAcquired(l, u)).running == k.running
    ensures Depth(k, TwiceAcquired(l, u), k.running, l) == 2
  {
    hide Booted, Unblockable, Next, Enabled, Possible, Depth, Final, Poised, Delta, Inv;
    var t := k.running;
    CreateSecond(k, l, u);
    var a := Next(k, Create(u));
    FirstAcquire(a, l, u, t);
    var b := Next(a, Acquire(l));
    FirstHolds(b, l, u, t);
    var c := Next(b, TakeHolder);
    SecondAcquire(c, l, u, t);
    One(b, TakeHolder, [Acquire(l)]);
    var r2 := [TakeHolder] + [Acquire(l)];
    One(a, Acquire(l), r2);
    var r3 := [Acquire(l)] + r2;
    One(k, Create(u), r3);
    CreateNeutral(k, u, t, l);
    assert [Create(u)] + r3 == TwiceAcquired(l, u);
  }

  lemma CreateNeutral(k: State, u: nat, t: nat, l: nat)
    requires Enabled(k, Create(u))
    ensures Delta(k, Create(u), t, l) == 0
  {
  }

  /** So, from every boot state: the first thread acquires twice and releases once, and then two threads are inside. */
  lemma TwoInside(k: State, l: nat, u: nat)
    requires Booted(k) && l in k.holders && u !in {IDLE, k.running}
    ensures var run := TwiceAcquired(l, u) + Handover(l);
      Possible(k, run) && Depth(k, run, k.running, l) > 0 && Depth(k, run, u, l) > 0
  {
    hide Booted, Possible, Final, Depth, Poised;
    TwiceAcquiredRun(k, l, u);
    NestingBreaksExclusion(k, TwiceAcquired(l, u), l, u);
  }
}
