/** What every step of the machine keeps: each thread is on at most one list, the one its status calls
    for; no wake-up is lost; semaphore operations balance; a lock has at most one owner. */
module KernelInvariant {
  import opened Options
  import opened Sequences
  import opened Kernel

  // ----- where threads are -----

  ghost predicate OnReady(k: State, t: nat)
  {
    t in k.status && t != IDLE && k.status[t] == Ready
  }

  ghost predicate OnWait(k: State, s: SemaId, t: nat)
  {
    t in k.status && t in k.pc && k.status[t] == Blocked && k.pc[t] == InDown(s)
  }

  ghost predicate OnSleep(k: State, t: nat)
  {
    t in k.pc && k.pc[t] == Sleeping
  }

  /** The status of a thread fits what it is doing; cpu is the thread on the processor, if any. */
  ghost predicate ThreadOk(k: State, cpu: Option<nat>, t: nat)
    requires t in k.status && t in k.pc
  {
    && (k.status[t] == Running <==> cpu == Some(t))
    && match k.pc[t]
       case Free => k.status[t] == Blocked ==> t == IDLE
       case InDown(s) => s in k.semas && k.status[t] != Dying
       case Sleeping => k.status[t] == Blocked
       case Acquired(l) => l in k.holders && k.status[t] != Blocked && k.status[t] != Dying
       case Releasing(l) => l in k.holders && k.status[t] != Blocked && k.status[t] != Dying
  }

  ghost predicate Threads(k: State, cpu: Option<nat>)
  {
    && k.status.Keys == k.pc.Keys && IDLE in k.status && k.pc[IDLE] == Free && k.status[IDLE] != Dying
    && (cpu.Some? ==> cpu.value in k.status)
    && forall t | t in k.status :: ThreadOk(k, cpu, t)
  }

  ghost predicate ReadyOk(k: State)
  {
    Distinct(k.ready) && forall t: nat :: t in k.ready <==> OnReady(k, t)
  }

  ghost predicate QueueOk(k: State, s: SemaId, q: seq<nat>)
  {
    Distinct(q) && forall t: nat :: t in q <==> OnWait(k, s, t)
  }

  ghost predicate WaitersOk(k: State)
  {
    forall s | s in k.semas :: QueueOk(k, s, k.semas[s].waiters)
  }

  /** Earlier wake-up times first, and among equal ones the earlier arrival. */
  ghost predicate InWakeOrder(l: seq<Sleeper>)
  {
    forall i, j | 0 <= i < j < |l| :: Earlier(l[i], l[j])
  }

  ghost predicate Earlier(a: Sleeper, b: Sleeper)
  {
    a.wake < b.wake || (a.wake == b.wake && a.arrival < b.arrival)
  }

  ghost predicate SleepsIn(l: seq<Sleeper>, t: nat)
  {
    exists i | 0 <= i < |l| :: l[i].tid == t
  }

  ghost predicate SleepersOk(k: State)
  {
    && InWakeOrder(k.sleepers)
    && (forall i | 0 <= i < |k.sleepers| :: k.sleepers[i].arrival < k.arrivals)
    && (forall i, j | 0 <= i < j < |k.sleepers| :: k.sleepers[i].tid != k.sleepers[j].tid)
    && forall t: nat :: SleepsIn(k.sleepers, t) <==> OnSleep(k, t)
  }

  ghost predicate Placed(k: State, cpu: Option<nat>)
  {
    Threads(k, cpu) && ReadyOk(k) && WaitersOk(k) && SleepersOk(k)
  }

  // ----- semaphores -----

  /** Threads woken from a semaphore that have not yet tried again. */
  ghost function Woken(k: State, s: SemaId): (w: set<nat>)
  {
    set t | t in k.pc && t in k.status && k.pc[t] == InDown(s) && k.status[t] != Blocked
  }

  /** No lost wake-up: while threads wait, the value is spoken for by threads already woken. */
  ghost predicate SemaOk(k: State, s: SemaId)
    requires s in k.semas
  {
    k.semas[s].waiters != [] ==> k.semas[s].value <= |Woken(k, s)|
  }

  ghost predicate SemasOk(k: State)
  {
    forall s | s in k.semas :: SemaOk(k, s)
  }

  // ----- locks -----

  /** Threads between the sema_down that ends lock_acquire and the sema_up that ends lock_release. */
  ghost function Owners(k: State, l: nat): (o: set<nat>)
  {
    set t | t in k.pc && Owning(k, l, t)
  }

  ghost predicate Owning(k: State, l: nat, t: nat)
    requires t in k.pc
  {
    k.pc[t] == Acquired(l) || k.pc[t] == Releasing(l) || (l in k.holders && k.holders[l] == Some(t))
  }

  ghost predicate LockOk(k: State, l: nat)
    requires l in k.holders
  {
    && OfLock(l) in k.semas && k.semas[OfLock(l)].value + |Owners(k, l)| == 1
    && (k.holders[l].Some? ==>
          var h := k.holders[l].value; h in k.pc && k.pc[h] != Acquired(l) && k.pc[h] != Releasing(l))
  }

  ghost predicate LocksOk(k: State)
  {
    (forall l | l in k.holders :: LockOk(k, l)) && forall l | OfLock(l) in k.semas :: l in k.holders
  }

  ghost predicate Inv(k: State)
  {
    Placed(k, Some(k.running)) && SemasOk(k) && LocksOk(k)
  }

  // ----- consequences -----

  /** thread_unblock's assertion holds wherever the code calls it. */
  lemma AlwaysUnblockable(k: State)
    requires Inv(k)
    ensures Unblockable(k)
  {
    forall i | 0 <= i < |k.sleepers| ensures Wakeable(k, k.sleepers[i].tid) {
      assert SleepsIn(k.sleepers, k.sleepers[i].tid);
    }
    forall s | s in k.semas && k.semas[s].waiters != [] ensures Wakeable(k, k.semas[s].waiters[0]) {
      assert QueueOk(k, s, k.semas[s].waiters);
      assert OnWait(k, s, k.semas[s].waiters[0]);
    }
  }

  /** Mutual exclusion: two threads that own the same lock are one thread. */
  lemma MutualExclusion(k: State, l: nat, t: nat, u: nat)
    requires Inv(k) && l in k.holders && t in Owners(k, l) && u in Owners(k, l)
    ensures t == u && k.semas[OfLock(l)].value == 0
  {
    hide Placed, SemasOk;
    assert LockOk(k, l);
    var rest := Owners(k, l) - {t};
    assert |rest| == |Owners(k, l)| - 1;
    assert rest == {};
  }

  /** No thread is on two lists, and the running thread is on none. */
  lemma OneList(k: State, t: nat)
    requires Inv(k)
    ensures t in k.ready ==> !SleepsIn(k.sleepers, t) && forall s | s in k.semas :: t !in k.semas[s].waiters
    ensures SleepsIn(k.sleepers, t) ==> forall s | s in k.semas :: t !in k.semas[s].waiters
    ensures forall s, r | s in k.semas && r in k.semas && t in k.semas[s].waiters && t in k.semas[r].waiters :: s == r
    ensures k.running !in k.ready && !SleepsIn(k.sleepers, k.running) && forall s | s in k.semas :: k.running !in k.semas[s].waiters
  {
    forall s | s in k.semas ensures forall u: nat :: u in k.semas[s].waiters <==> OnWait(k, s, u) {
      assert QueueOk(k, s, k.semas[s].waiters);
    }
    assert ThreadOk(k, Some(k.running), k.running);
    assert t in k.status ==> ThreadOk(k, Some(k.running), t);
  }
}
