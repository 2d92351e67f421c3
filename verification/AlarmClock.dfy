/** Sleeping and waking (src/devices/timer.c:90-117, 191-203, src/threads/thread.c:267-291): the sleep list
    stays in wake-up order with ties in order of arrival, and each tick wakes exactly the threads that are
    due, in that order. */
module AlarmClock {
  import opened Options
  import opened SequenceSort
  import opened Kernel
  import opened KernelInvariant
  import opened KernelSteps

  // ----- going to sleep -----

  /** Insertion keeps the order: the newcomer goes after those with the same wake-up time. */
  lemma InsertInOrder(l: seq<Sleeper>, e: Sleeper)
    requires InWakeOrder(l) && forall i | 0 <= i < |l| :: l[i].arrival < e.arrival
    ensures InWakeOrder(InsertOrdered(WakesBefore, l, e))
  {
    var i := Slot(WakesBefore, l, e);
    assert forall j | 0 <= j < i :: Earlier(l[j], e) by {
      assert forall j | 0 <= j < i :: !WakesBefore(e, l[j]);
    }
    assert forall j | i <= j < |l| :: Earlier(e, l[j]);
    hide Slot, Earlier;
    OrderedAt(l, e, i);
  }

  lemma OrderedAt(l: seq<Sleeper>, e: Sleeper, i: nat)
    requires InWakeOrder(l) && i <= |l|
    requires (forall j | 0 <= j < i :: Earlier(l[j], e)) && (forall j | i <= j < |l| :: Earlier(e, l[j]))
    ensures InWakeOrder(l[..i] + [e] + l[i..])
  {
    hide Earlier;
    var r := l[..i] + [e] + l[i..];
    assert forall j | 0 <= j < |r| :: r[j] == if j < i then l[j] else if j == i then e else l[j - 1];
  }

  lemma InsertedTids(l: seq<Sleeper>, e: Sleeper)
    requires !SleepsIn(l, e.tid) && forall i, j | 0 <= i < j < |l| :: l[i].tid != l[j].tid
    ensures var r := InsertOrdered(WakesBefore, l, e);
      && (forall i, j | 0 <= i < j < |r| :: r[i].tid != r[j].tid)
      && (forall t: nat :: SleepsIn(r, t) <==> SleepsIn(l, t) || t == e.tid)
      && forall x | x in r :: x in l || x == e
  {
    hide Slot, SleepsIn;
    TidsAt(l, e, Slot(WakesBefore, l, e));
  }

  lemma TidsAt(l: seq<Sleeper>, e: Sleeper, i: nat)
    requires i <= |l| && !SleepsIn(l, e.tid) && forall i, j | 0 <= i < j < |l| :: l[i].tid != l[j].tid
    ensures var r := l[..i] + [e] + l[i..];
      && (forall i, j | 0 <= i < j < |r| :: r[i].tid != r[j].tid)
      && (forall t: nat :: SleepsIn(r, t) <==> SleepsIn(l, t) || t == e.tid)
      && forall x | x in r :: x in l || x == e
  {
    var r := l[..i] + [e] + l[i..];
    assert forall j | 0 <= j < |l| :: l[j].tid != e.tid;
    assert forall j | 0 <= j < |r| :: r[j] == if j < i then l[j] else if j == i then e else l[j - 1];
    forall t: nat ensures SleepsIn(r, t) <==> SleepsIn(l, t) || t == e.tid {
      assert r[i].tid == e.tid;
      if SleepsIn(l, t) {
        var j :| 0 <= j < |l| && l[j].tid == t;
        assert r[if j < i then j else j + 1].tid == t;
      }
    }
  }

  lemma SleepKeeps(k: State, d: int)
    requires Inv(k) && k.pc[k.running] == Free && k.running != IDLE
    ensures Inv(Sleep(k, d))
  {
    SleepStops(k, d);
    hide Placed, SemasOk, LocksOk, Schedule, Stopped, Bedded;
    DispatchKeeps(Stopped(Bedded(k, d), Sleeping));
  }

  lemma SleepStops(k: State, d: int)
    requires Inv(k) && k.pc[k.running] == Free && k.running != IDLE
    ensures var m := Stopped(Bedded(k, d), Sleeping); Placed(m, None) && SemasOk(m) && LocksOk(m)
  {
    hide ReadyOk, SameRoles, WaitersOk, SemasOk, LocksOk, SleepersOk, InsertOrdered, ThreadOk;
    var m := Stopped(Bedded(k, d), Sleeping);
    SleepThreads(k, m);
    SleepList(k, Sleeper(k.running, k.ticks + d, k.arrivals), m);
    RolesKept(k, m);
  }

  lemma SleepThreads(k: State, m: State)
    requires Threads(k, Some(k.running)) && ReadyOk(k) && k.pc[k.running] == Free && k.running != IDLE
    requires m.status == k.status[k.running := Blocked] && m.pc == k.pc[k.running := Sleeping] && m.ready == k.ready
    requires m.semas == k.semas && m.holders == k.holders
    ensures Threads(m, None) && ReadyOk(m) && SameRoles(k, m)
  {
    assert ThreadOk(k, Some(k.running), k.running);
    forall t | t in m.status ensures ThreadOk(m, None, t) {
      assert ThreadOk(k, Some(k.running), t);
    }
    forall t: nat ensures t in m.ready <==> OnReady(m, t) {
      assert t in k.ready <==> OnReady(k, t);
    }
  }

  lemma SleepList(k: State, e: Sleeper, m: State)
    requires SleepersOk(k) && k.running in k.pc && k.pc[k.running] == Free && e.tid == k.running && e.arrival == k.arrivals
    requires m.pc == k.pc[k.running := Sleeping] && m.arrivals == k.arrivals + 1
    requires m.sleepers == InsertOrdered(WakesBefore, k.sleepers, e)
    ensures SleepersOk(m)
  {
    assert !OnSleep(k, k.running);
    assert !SleepsIn(k.sleepers, k.running);
    InsertInOrder(k.sleepers, e);
    InsertedTids(k.sleepers, e);
    hide InsertOrdered, SleepsIn;
    forall i | 0 <= i < |m.sleepers| ensures m.sleepers[i].arrival < m.arrivals {
      assert m.sleepers[i] in m.sleepers;
    }
    forall t: nat ensures SleepsIn(m.sleepers, t) <==> OnSleep(m, t) {
      assert SleepsIn(k.sleepers, t) <==> OnSleep(k, t);
    }
  }

  // ----- waking up -----

  lemma WakeKeeps(k: State)
    requires Inv(k) && k.sleepers != []
    ensures Wakeable(k, k.sleepers[0].tid) && Inv(WakeFirst(k))
  {
    var t := k.sleepers[0].tid;
    assert SleepsIn(k.sleepers, t);
    assert OnSleep(k, t) && ThreadOk(k, Some(k.running), t);
    var m := WakeFirst(k);
    WakeThreads(k, t, m);
    WakeList(k, m);
    hide ReadyOk, Threads, SameRoles, WaitersOk, SemasOk, LocksOk, SleepersOk;
    RolesKept(k, m);
  }

  lemma WakeThreads(k: State, w: nat, m: State)
    requires Threads(k, Some(k.running)) && ReadyOk(k) && OnSleep(k, w) && w in k.status && k.status[w] == Blocked && w != IDLE
    requires m.status == k.status[w := Ready] && m.pc == k.pc[w := Free] && m.ready == k.ready + [w]
    requires m.semas == k.semas && m.holders == k.holders && m.running == k.running
    ensures Threads(m, Some(m.running)) && ReadyOk(m) && SameRoles(k, m)
  {
    assert ThreadOk(k, Some(k.running), w);
    forall t | t in m.status ensures ThreadOk(m, Some(m.running), t) {
      assert ThreadOk(k, Some(k.running), t);
    }
    UnblockReady(k, w, m);
  }

  lemma WakeList(k: State, m: State)
    requires SleepersOk(k) && k.sleepers != [] && m.sleepers == k.sleepers[1..] && m.arrivals == k.arrivals
    requires m.pc == k.pc[k.sleepers[0].tid := Free]
    ensures SleepersOk(m)
  {
    var w := k.sleepers[0].tid;
    forall t: nat ensures SleepsIn(m.sleepers, t) <==> OnSleep(m, t) {
      assert SleepsIn(k.sleepers, t) <==> OnSleep(k, t);
      if SleepsIn(k.sleepers, t) && t != w {
        var i :| 0 <= i < |k.sleepers| && k.sleepers[i].tid == t;
        assert m.sleepers[i - 1].tid == t;
      }
      if SleepsIn(m.sleepers, t) {
        var i :| 0 <= i < |m.sleepers| && m.sleepers[i].tid == t;
        assert k.sleepers[i + 1].tid == t;
      }
    }
  }

  /** How many sleepers at the front are due. */
  function DueCount(l: seq<Sleeper>, ticks: int): (n: nat)
    ensures n <= |l| && (forall i | 0 <= i < n :: l[i].wake <= ticks) && (n < |l| ==> ticks < l[n].wake)
  {
    if l == [] || ticks < l[0].wake then 0 else 1 + DueCount(l[1..], ticks)
  }

  ghost function Tids(l: seq<Sleeper>): (ts: seq<nat>)
    ensures |ts| == |l|
  {
    seq(|l|, i requires 0 <= i < |l| => l[i].tid)
  }

  /** The early stop is justified: those at the front that are due are all that are due. */
  lemma DueIsPrefix(l: seq<Sleeper>, ticks: int)
    requires InWakeOrder(l)
    ensures var n := DueCount(l, ticks); forall i | 0 <= i < |l| :: l[i].wake <= ticks <==> i < n
  {
    var n := DueCount(l, ticks);
    forall i | n < i < |l| ensures ticks < l[i].wake {
      assert Earlier(l[n], l[i]);
    }
  }

  /** From k to n, the first d sleepers became ready, in order, and nothing else about the machine changed. */
  ghost predicate Woke(k: State, n: State, d: nat)
    requires d <= |k.sleepers|
  {
    && n.sleepers == k.sleepers[d..] && n.ready == k.ready + Tids(k.sleepers[..d])
    && n.running == k.running && n.ticks == k.ticks && n.threadTicks == k.threadTicks
    && n.semas == k.semas && n.holders == k.holders
  }

  /** repeated_check_blocked_list wakes exactly the threads that are due, in wake-up order. */
  lemma {:induction false} WakesExactlyDue(k: State)
    requires Inv(k)
    ensures SleepersWakeable(k)
    ensures var n, d := WakeDue(k), DueCount(k.sleepers, k.ticks);
      Inv(n) && Woke(k, n, d) && forall i | 0 <= i < |k.sleepers| :: k.sleepers[i].wake <= k.ticks <==> i < d
    decreases |k.sleepers|
  {
    hide Inv, SleepersWakeable, Woke;
    OrderFacts(k);
    DueIsPrefix(k.sleepers, k.ticks);
    if k.sleepers == [] || k.ticks < k.sleepers[0].wake {
      WokeNone(k);
    } else {
      WakeKeeps(k);
      var m := WakeFirst(k);
      WakesExactlyDue(m);
      WokeOne(k, WakeDue(m), DueCount(m.sleepers, k.ticks));
    }
  }

  lemma WokeNone(k: State)
    ensures Woke(k, k, 0)
  {
    assert k.ready + Tids(k.sleepers[..0]) == k.ready;
  }

  lemma WokeOne(k: State, n: State, d: nat)
    requires k.sleepers != [] && Wakeable(k, k.sleepers[0].tid) && d < |k.sleepers| && Woke(WakeFirst(k), n, d)
    ensures Woke(k, n, d + 1)
  {
    WakePieces(k.sleepers, k.ready, d);
  }

  lemma OrderFacts(k: State)
    requires Inv(k)
    ensures InWakeOrder(k.sleepers) && SleepersWakeable(k)
  {
    AlwaysUnblockable(k);
  }

  lemma WakePieces(l: seq<Sleeper>, ready: seq<nat>, d: nat)
    requires l != [] && d < |l|
    ensures l[1..][d..] == l[1 + d..]
    ensures ready + [l[0].tid] + Tids(l[1..][..d]) == ready + Tids(l[..1 + d])
  {
  }

  // ----- the timer interrupt -----

  lemma ClockKept(k: State, ticks: int, threadTicks: nat)
    requires Inv(k)
    ensures Inv(k.(ticks := ticks, threadTicks := threadTicks))
  {
    var n := k.(ticks := ticks, threadTicks := threadTicks);
    assert Threads(n, Some(n.running)) by {
      forall t | t in n.status ensures ThreadOk(n, Some(n.running), t) {
        assert ThreadOk(k, Some(k.running), t);
      }
    }
    assert ReadyOk(n) by {
      forall t: nat ensures t in n.ready <==> OnReady(n, t) {
        assert t in k.ready <==> OnReady(k, t);
      }
    }
    hide Threads, ReadyOk, WaitersOk, SemasOk, LocksOk;
    SleepersKept(k, n);
    RolesKept(k, n);
  }

  lemma LaterKept(k: State)
    requires Inv(k)
    ensures Inv(Later(k)) && SleepersWakeable(Later(k)) && SleepersWakeable(k)
  {
    hide Inv, SleepersWakeable;
    AlwaysUnblockable(k);
    ClockKept(k, k.ticks + 1, k.threadTicks);
    AlwaysUnblockable(Later(k));
  }

  lemma CountTickKept(k: State)
    requires Inv(k)
    ensures Inv(CountTick(k)) && CountTick(k).sleepers == k.sleepers && CountTick(k).ticks == k.ticks
  {
    hide Inv;
    ClockKept(k, k.ticks, k.threadTicks + 1);
    YieldKeeps(k.(threadTicks := k.threadTicks + 1));
  }

  /** A timer interrupt keeps the invariant, and after it nobody sleeps past their time. */
  lemma TickKeeps(k: State)
    requires Inv(k)
    ensures SleepersWakeable(k) && Inv(Tick(k))
    ensures var n := Tick(k); n.ticks == k.ticks + 1 && forall i | 0 <= i < |n.sleepers| :: n.sleepers[i].wake > n.ticks
  {
    hide Inv, SleepersWakeable, WakeDue, CountTick;
    LaterKept(k);
    WakesExactlyDue(Later(k));
    var w := WakeDue(Later(k));
    CountTickKept(w);
  }
}
