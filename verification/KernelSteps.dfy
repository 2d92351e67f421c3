/** Every step of the machine keeps the invariant. */
module KernelSteps {
  import opened Options
  import opened Kernel
  import opened KernelInvariant

  /** Two states in which the same threads wait, were woken, and own locks. */
  ghost predicate SameRoles(k: State, n: State)
  {
    && n.semas == k.semas && n.holders == k.holders
    && (forall s, t: nat :: OnWait(n, s, t) <==> OnWait(k, s, t))
    && (forall s :: Woken(n, s) == Woken(k, s))
    && k.pc.Keys <= n.pc.Keys
    && forall t | t in n.pc :: SamePart(k, n, t)
  }

  /** The thread is no nearer to and no farther from owning a lock. */
  ghost predicate SamePart(k: State, n: State, t: nat)
    requires t in n.pc
  {
    (t in k.pc && n.pc[t] == k.pc[t])
    || (!n.pc[t].Acquired? && !n.pc[t].Releasing? && (t in k.pc ==> !k.pc[t].Acquired? && !k.pc[t].Releasing?))
  }

  lemma RolesKept(k: State, n: State)
    requires SameRoles(k, n) && WaitersOk(k) && SemasOk(k) && LocksOk(k)
    ensures WaitersOk(n) && SemasOk(n) && LocksOk(n)
  {
    forall s | s in n.semas ensures QueueOk(n, s, n.semas[s].waiters) && SemaOk(n, s) {
      assert QueueOk(k, s, k.semas[s].waiters) && SemaOk(k, s);
    }
    forall l | l in n.holders ensures LockOk(n, l) {
      assert LockOk(k, l);
      assert Owners(n, l) == Owners(k, l);
    }
  }

  lemma SleepersKept(k: State, n: State)
    requires SleepersOk(k) && n.sleepers == k.sleepers && n.arrivals == k.arrivals && n.pc == k.pc
    ensures SleepersOk(n)
  {
    forall t: nat ensures SleepsIn(n.sleepers, t) <==> OnSleep(n, t) {
      assert SleepsIn(k.sleepers, t) <==> OnSleep(k, t);
    }
  }

  // ----- dispatch -----

  lemma DispatchReady(k: State)
    requires ReadyOk(k) && IDLE in k.status && k.status[IDLE] != Running
    ensures ReadyOk(Schedule(k))
  {
    var n := Schedule(k);
    assert k.ready != [] ==> k.ready == [k.ready[0]] + n.ready;
    forall t: nat ensures t in n.ready <==> OnReady(n, t) {
      assert t in k.ready <==> OnReady(k, t);
    }
  }

  lemma DispatchThreads(k: State)
    requires Threads(k, None) && ReadyOk(k)
    ensures var n := Schedule(k); Threads(n, Some(n.running)) && SameRoles(k, n)
  {
    var n := Schedule(k);
    assert n.running != IDLE ==> OnReady(k, n.running);
    assert ThreadOk(k, None, n.running);
    forall t | t in n.status ensures ThreadOk(n, Some(n.running), t) {
      assert t in k.status && ThreadOk(k, None, t);
    }
  }

  /** schedule puts a ready thread, or the idle thread, on the processor. */
  lemma DispatchKeeps(k: State)
    requires Placed(k, None) && SemasOk(k) && LocksOk(k)
    ensures Inv(Schedule(k))
  {
    DispatchThreads(k);
    assert ThreadOk(k, None, IDLE);
    DispatchReady(k);
    hide ReadyOk, Threads, SameRoles, WaitersOk, SemasOk, LocksOk, SleepersOk;
    RolesKept(k, Schedule(k));
    SleepersKept(k, Schedule(k));
  }

  // ----- leaving the processor -----

  /** The running thread goes to the end of the ready list. */
  lemma YieldKeeps(k: State)
    requires Inv(k)
    ensures Inv(Yield(k))
  {
    var ready := if k.running != IDLE then k.ready + [k.running] else k.ready;
    var m := k.(status := k.status[k.running := Ready], ready := ready);
    StopReady(k, m);
    hide ReadyOk, Threads, SameRoles, WaitersOk, SemasOk, LocksOk, SleepersOk;
    RolesKept(k, m);
    SleepersKept(k, m);
    DispatchKeeps(m);
  }

  lemma StopReady(k: State, m: State)
    requires Threads(k, Some(k.running)) && ReadyOk(k)
    requires m == k.(status := k.status[k.running := Ready], ready := if k.running != IDLE then k.ready + [k.running] else k.ready)
    ensures Threads(m, None) && ReadyOk(m) && SameRoles(k, m)
  {
    assert ThreadOk(k, Some(k.running), k.running);
    assert !OnReady(k, k.running);
    forall t | t in m.status ensures ThreadOk(m, None, t) {
      assert ThreadOk(k, Some(k.running), t);
    }
    forall t: nat ensures t in m.ready <==> OnReady(m, t) {
      assert t in k.ready <==> OnReady(k, t);
    }
  }

  /** The running thread leaves without joining a list: it exits, or it is the idle thread. */
  lemma LeaveKeeps(k: State, status: Status)
    requires Inv(k) && k.pc[k.running] == Free
    requires status == (if k.running == IDLE then Blocked else Dying)
    ensures Inv(Schedule(k.(status := k.status[k.running := status])))
  {
    var m := k.(status := k.status[k.running := status]);
    StopLeave(k, m, status);
    hide ReadyOk, Threads, SameRoles, WaitersOk, SemasOk, LocksOk, SleepersOk;
    RolesKept(k, m);
    SleepersKept(k, m);
    DispatchKeeps(m);
  }

  lemma StopLeave(k: State, m: State, status: Status)
    requires Threads(k, Some(k.running)) && ReadyOk(k) && k.pc[k.running] == Free
    requires status == (if k.running == IDLE then Blocked else Dying) && m == k.(status := k.status[k.running := status])
    ensures Threads(m, None) && ReadyOk(m) && SameRoles(k, m)
  {
    assert ThreadOk(k, Some(k.running), k.running);
    forall t | t in m.status ensures ThreadOk(m, None, t) {
      assert ThreadOk(k, Some(k.running), t);
    }
    forall t: nat ensures t in m.ready <==> OnReady(m, t) {
      assert t in k.ready <==> OnReady(k, t);
    }
  }

  // ----- semaphores -----

  /** The threads that own locks do not change when one thread's pc does, unless it says otherwise. */
  lemma OwnersKept(k: State, m: State, t: nat, l: nat)
    requires m.holders == k.holders && t in k.pc && t in m.pc && m.pc == k.pc[t := m.pc[t]]
    requires !k.pc[t].Acquired? && !k.pc[t].Releasing? && !m.pc[t].Acquired? && !m.pc[t].Releasing?
    ensures Owners(m, l) == Owners(k, l)
  {
  }

  /** A thread that finds the value zero joins the waiters and blocks. */
  lemma WaitKeeps(k: State, s: SemaId)
    requires Inv(k) && s in k.semas && k.semas[s].value == 0 && k.running != IDLE
    requires k.pc[k.running] == Free || k.pc[k.running] == InDown(s)
    ensures Inv(DownOnce(k, s))
  {
    var q := k.semas[s];
    var m := k.(semas := k.semas[s := q.(waiters := q.waiters + [k.running])],
                status := k.status[k.running := Blocked], pc := k.pc[k.running := InDown(s)]);
    WaitThreads(k, m, s);
    WaitSemas(k, m, s);
    WaitLocks(k, m, s);
    hide ReadyOk, Threads, WaitersOk, SemasOk, LocksOk, SleepersOk;
    DispatchKeeps(m);
  }

  lemma WaitThreads(k: State, m: State, s: SemaId)
    requires Threads(k, Some(k.running)) && ReadyOk(k) && SleepersOk(k) && s in k.semas && k.running != IDLE
    requires k.pc[k.running] == Free || k.pc[k.running] == InDown(s)
    requires var q := k.semas[s];
      m == k.(semas := k.semas[s := q.(waiters := q.waiters + [k.running])],
              status := k.status[k.running := Blocked], pc := k.pc[k.running := InDown(s)])
    ensures Threads(m, None) && ReadyOk(m) && SleepersOk(m)
  {
    assert ThreadOk(k, Some(k.running), k.running);
    forall t | t in m.status ensures ThreadOk(m, None, t) {
      assert ThreadOk(k, Some(k.running), t);
    }
    forall t: nat ensures t in m.ready <==> OnReady(m, t) {
      assert t in k.ready <==> OnReady(k, t);
    }
    forall t: nat ensures SleepsIn(m.sleepers, t) <==> OnSleep(m, t) {
      assert SleepsIn(k.sleepers, t) <==> OnSleep(k, t);
    }
  }

  lemma WaitSemas(k: State, m: State, s: SemaId)
    requires Threads(k, Some(k.running)) && WaitersOk(k) && SemasOk(k) && s in k.semas && k.semas[s].value == 0
    requires k.pc[k.running] == Free || k.pc[k.running] == InDown(s)
    requires var q := k.semas[s];
      m == k.(semas := k.semas[s := q.(waiters := q.waiters + [k.running])],
              status := k.status[k.running := Blocked], pc := k.pc[k.running := InDown(s)])
    ensures WaitersOk(m) && SemasOk(m)
  {
    forall r | r in m.semas ensures SemaOk(m, r) {
      assert SemaOk(k, r);
      assert r != s ==> Woken(m, r) == Woken(k, r);
    }
    hide SemasOk, Threads;
    WaitQueues(k, m, s);
  }

  lemma WaitQueues(k: State, m: State, s: SemaId)
    requires Threads(k, Some(k.running)) && WaitersOk(k) && s in k.semas
    requires k.pc[k.running] == Free || k.pc[k.running] == InDown(s)
    requires var q := k.semas[s];
      m == k.(semas := k.semas[s := q.(waiters := q.waiters + [k.running])],
              status := k.status[k.running := Blocked], pc := k.pc[k.running := InDown(s)])
    ensures WaitersOk(m)
  {
    assert ThreadOk(k, Some(k.running), k.running);
    forall r | r in m.semas ensures QueueOk(m, r, m.semas[r].waiters) {
      assert QueueOk(k, r, k.semas[r].waiters);
      assert !OnWait(k, r, k.running);
      forall t: nat ensures t in m.semas[r].waiters <==> OnWait(m, r, t) {
        assert t in k.semas[r].waiters <==> OnWait(k, r, t);
      }
    }
  }

  lemma WaitLocks(k: State, m: State, s: SemaId)
    requires LocksOk(k) && k.running in k.pc && s in k.semas
    requires k.pc[k.running] == Free || k.pc[k.running] == InDown(s)
    requires var q := k.semas[s];
      m == k.(semas := k.semas[s := q.(waiters := q.waiters + [k.running])],
              status := k.status[k.running := Blocked], pc := k.pc[k.running := InDown(s)])
    ensures LocksOk(m)
  {
    forall l | l in m.holders ensures LockOk(m, l) {
      assert LockOk(k, l);
      OwnersKept(k, m, k.running, l);
    }
  }

  /** The running thread takes one from the value and moves on. */
  lemma TakeKeeps(k: State, s: SemaId, pc: Pc)
    requires Inv(k) && s in k.semas && k.semas[s].value > 0
    requires pc == AfterDown(s) || (s.Plain? && pc == k.pc[k.running] && !pc.InDown?)
    requires pc != k.pc[k.running] ==> k.pc[k.running] == Free || k.pc[k.running] == InDown(s)
    requires s.OfLock? ==> k.running != IDLE
    ensures Inv(TakeValue(k, s, pc))
  {
    var m := TakeValue(k, s, pc);
    TakeThreads(k, s, pc);
    TakeSemas(k, s, pc);
    TakeLocks(k, s, pc);
  }

  lemma TakeThreads(k: State, s: SemaId, pc: Pc)
    requires Inv(k) && s in k.semas && k.semas[s].value > 0 && (s.OfLock? ==> k.running != IDLE)
    requires pc == AfterDown(s) || pc == k.pc[k.running]
    requires pc != k.pc[k.running] ==> k.pc[k.running] == Free || k.pc[k.running] == InDown(s)
    ensures var m := TakeValue(k, s, pc); Threads(m, Some(m.running)) && ReadyOk(m) && SleepersOk(m)
  {
    hide WaitersOk, SemasOk;
    var m := TakeValue(k, s, pc);
    assert ThreadOk(k, Some(k.running), k.running);
    forall t | t in m.status ensures ThreadOk(m, Some(m.running), t) {
      assert ThreadOk(k, Some(k.running), t);
    }
    hide LocksOk, Threads;
    forall t: nat ensures t in m.ready <==> OnReady(m, t) {
      assert t in k.ready <==> OnReady(k, t);
    }
    forall t: nat ensures SleepsIn(m.sleepers, t) <==> OnSleep(m, t) {
      assert SleepsIn(k.sleepers, t) <==> OnSleep(k, t);
    }
  }

  lemma TakeSemas(k: State, s: SemaId, pc: Pc)
    requires Threads(k, Some(k.running)) && WaitersOk(k) && SemasOk(k) && s in k.semas && k.semas[s].value > 0
    requires !pc.InDown?
    requires pc != k.pc[k.running] ==> k.pc[k.running] == Free || k.pc[k.running] == InDown(s)
    ensures var m := TakeValue(k, s, pc); WaitersOk(m) && SemasOk(m)
  {
    var m := TakeValue(k, s, pc);
    assert ThreadOk(k, Some(k.running), k.running);
    forall r | r in m.semas ensures QueueOk(m, r, m.semas[r].waiters) && SemaOk(m, r) {
      assert QueueOk(k, r, k.semas[r].waiters) && SemaOk(k, r);
      hide QueueOk, SemaOk;
      TakeSema(k, s, pc, r);
    }
  }

  lemma TakeSema(k: State, s: SemaId, pc: Pc, r: SemaId)
    requires s in k.semas && k.semas[s].value > 0 && k.running in k.pc && k.running in k.status && k.status[k.running] == Running
    requires !pc.InDown? && r in k.semas && QueueOk(k, r, k.semas[r].waiters) && SemaOk(k, r)
    requires pc != k.pc[k.running] ==> k.pc[k.running] == Free || k.pc[k.running] == InDown(s)
    ensures var m := TakeValue(k, s, pc); QueueOk(m, r, m.semas[r].waiters) && SemaOk(m, r)
  {
    hide QueueOk, Woken;
    WokenTaken(k, s, pc, r);
    QueueKept(k, TakeValue(k, s, pc), r);
  }

  lemma WokenTaken(k: State, s: SemaId, pc: Pc, r: SemaId)
    requires s in k.semas && k.semas[s].value > 0 && k.running in k.pc && k.running in k.status && k.status[k.running] == Running
    requires !pc.InDown?
    requires pc != k.pc[k.running] ==> k.pc[k.running] == Free || k.pc[k.running] == InDown(s)
    ensures var m := TakeValue(k, s, pc);
      if r == s && k.pc[k.running] == InDown(s)
      then k.running in Woken(k, r) && Woken(m, r) == Woken(k, r) - {k.running} else Woken(m, r) == Woken(k, r)
  {
  }

  /** A queue is still right when only threads that are not blocked changed. */
  lemma QueueKept(k: State, m: State, r: SemaId)
    requires r in k.semas && r in m.semas && m.semas[r].waiters == k.semas[r].waiters && QueueOk(k, r, k.semas[r].waiters)
    requires forall t: nat :: OnWait(m, r, t) <==> OnWait(k, r, t)
    ensures QueueOk(m, r, m.semas[r].waiters)
  {
  }

  lemma TakeLocks(k: State, s: SemaId, pc: Pc)
    requires LocksOk(k) && k.running in k.pc && s in k.semas && k.semas[s].value > 0
    requires pc == AfterDown(s) || (s.Plain? && pc == k.pc[k.running] && !pc.InDown?)
    requires pc != k.pc[k.running] ==> k.pc[k.running] == Free || k.pc[k.running] == InDown(s)
    ensures LocksOk(TakeValue(k, s, pc))
  {
    var m := TakeValue(k, s, pc);
    forall l | l in m.holders ensures LockOk(m, l) {
      assert LockOk(k, l);
      if s == OfLock(l) {
        assert Owners(k, l) == {};
        assert Owners(m, l) == {k.running};
      } else {
        assert Owners(m, l) == Owners(k, l);
      }
    }
  }

  // ----- sema_up -----

  /** sema_up on a semaphore whose value may rise; the caller accounts for the lock it may belong to. */
  lemma UpKeeps(k: State, s: SemaId)
    requires Placed(k, Some(k.running)) && SemasOk(k) && s in k.semas && Unblockable(k)
    ensures var m := Up(k, s); Placed(m, Some(m.running)) && SemasOk(m)
  {
    hide Threads, ReadyOk, SleepersOk, SemasOk, WaitersOk, OnWait, SleepersWakeable, Up;
    if k.semas[s].waiters == [] {
      UpQuiet(k, s);
    } else {
      FirstWaits(k, s);
      UpThreads(k, s);
      UpSemas(k, s);
    }
  }

  lemma FirstWaits(k: State, s: SemaId)
    requires WaitersOk(k) && s in k.semas && k.semas[s].waiters != []
    ensures OnWait(k, s, k.semas[s].waiters[0])
  {
    assert QueueOk(k, s, k.semas[s].waiters);
  }

  lemma UpFrame(k: State, s: SemaId)
    requires s in k.semas && (k.semas[s].waiters != [] ==> Wakeable(k, k.semas[s].waiters[0]))
    ensures var m := Up(k, s);
      && m.pc == k.pc && m.holders == k.holders && m.running == k.running
      && m.semas == k.semas[s := m.semas[s]] && m.semas[s].value == k.semas[s].value + 1
  {
  }

  lemma UpQuiet(k: State, s: SemaId)
    requires Placed(k, Some(k.running)) && SemasOk(k) && s in k.semas && k.semas[s].waiters == []
    ensures var m := Up(k, s); Placed(m, Some(m.running)) && SemasOk(m)
  {
    var m := Up(k, s);
    assert Threads(m, Some(m.running)) by {
      forall t | t in m.status ensures ThreadOk(m, Some(m.running), t) {
        assert ThreadOk(k, Some(k.running), t);
      }
    }
    assert ReadyOk(m) by {
      forall t: nat ensures t in m.ready <==> OnReady(m, t) {
        assert t in k.ready <==> OnReady(k, t);
      }
    }
    hide Threads, ReadyOk;
    SleepersKept(k, m);
    forall r | r in m.semas ensures QueueOk(m, r, m.semas[r].waiters) && SemaOk(m, r) {
      assert QueueOk(k, r, k.semas[r].waiters) && SemaOk(k, r);
      assert forall t: nat :: OnWait(m, r, t) <==> OnWait(k, r, t);
      QueueKept(k, m, r);
      assert Woken(m, r) == Woken(k, r);
    }
  }

  lemma UpThreads(k: State, s: SemaId)
    requires Placed(k, Some(k.running)) && s in k.semas && k.semas[s].waiters != [] && OnWait(k, s, k.semas[s].waiters[0])
    ensures var m := Up(k, s); Threads(m, Some(m.running)) && ReadyOk(m) && SleepersOk(m)
  {
    var m, w := Up(k, s), k.semas[s].waiters[0];
    assert ThreadOk(k, Some(k.running), w);
    forall t | t in m.status ensures ThreadOk(m, Some(m.running), t) {
      assert ThreadOk(k, Some(k.running), t);
    }
    UnblockReady(k, w, m);
    hide Threads, ReadyOk;
    SleepersKept(k, m);
  }

  lemma UnblockReady(k: State, w: nat, m: State)
    requires ReadyOk(k) && w in k.status && k.status[w] == Blocked && w != IDLE
    requires m.ready == k.ready + [w] && m.status == k.status[w := Ready]
    ensures ReadyOk(m)
  {
    assert !OnReady(k, w);
    forall t: nat ensures t in m.ready <==> OnReady(m, t) {
      assert t in k.ready <==> OnReady(k, t);
    }
  }

  lemma UpSemas(k: State, s: SemaId)
    requires WaitersOk(k) && SemasOk(k) && s in k.semas && k.semas[s].waiters != [] && OnWait(k, s, k.semas[s].waiters[0])
    ensures WaitersOk(Up(k, s)) && SemasOk(Up(k, s))
  {
    var m := Up(k, s);
    forall r | r in m.semas ensures QueueOk(m, r, m.semas[r].waiters) && SemaOk(m, r) {
      assert QueueOk(k, r, k.semas[r].waiters) && SemaOk(k, r);
      hide QueueOk, SemaOk;
      UpSema(k, s, r);
    }
  }

  lemma UpSema(k: State, s: SemaId, r: SemaId)
    requires s in k.semas && k.semas[s].waiters != [] && OnWait(k, s, k.semas[s].waiters[0])
    requires r in k.semas && QueueOk(k, r, k.semas[r].waiters) && SemaOk(k, r)
    ensures var m := Up(k, s); QueueOk(m, r, m.semas[r].waiters) && SemaOk(m, r)
  {
    hide QueueOk, Woken;
    var m := Up(k, s);
    WokenRaised(k, m, s, k.semas[s].waiters[0], r);
    if r == s {
      QueuePopped(k, m, s);
    } else {
      QueueKept(k, m, r);
    }
  }

  lemma WokenRaised(k: State, m: State, s: SemaId, w: nat, r: SemaId)
    requires OnWait(k, s, w) && m.pc == k.pc && m.status == k.status[w := Ready]
    ensures w !in Woken(k, r) && Woken(m, r) == if r == s then Woken(k, r) + {w} else Woken(k, r)
    ensures forall t: nat :: OnWait(m, r, t) <==> OnWait(k, r, t) && !(r == s && t == w)
  {
  }

  lemma QueuePopped(k: State, m: State, s: SemaId)
    requires s in k.semas && s in m.semas && k.semas[s].waiters != [] && QueueOk(k, s, k.semas[s].waiters)
    requires m.semas[s].waiters == k.semas[s].waiters[1..]
    requires forall t: nat :: OnWait(m, s, t) <==> OnWait(k, s, t) && t != k.semas[s].waiters[0]
    ensures QueueOk(m, s, m.semas[s].waiters)
  {
    var q := k.semas[s].waiters;
    assert q == [q[0]] + q[1..];
    forall t: nat ensures t in q[1..] <==> OnWait(m, s, t) {
      assert t in q <==> OnWait(k, s, t);
    }
  }

  // ----- locks -----

  /** sema_up on a plain semaphore. */
  lemma PlainUpKeeps(k: State, i: nat)
    requires Inv(k) && Unblockable(k) && Plain(i) in k.semas
    ensures Inv(Up(k, Plain(i)))
  {
    hide Placed, SemasOk, LocksOk, SleepersWakeable, Up;
    UpKeeps(k, Plain(i));
    UpFrame(k, Plain(i));
    PlainLocks(k, Up(k, Plain(i)), Plain(i));
  }

  lemma PlainLocks(k: State, m: State, s: SemaId)
    requires LocksOk(k) && s in k.semas && s.Plain? && s in m.semas
    requires m.pc == k.pc && m.holders == k.holders && m.semas == k.semas[s := m.semas[s]]
    ensures LocksOk(m)
  {
    forall l | l in m.holders ensures LockOk(m, l) {
      assert LockOk(k, l);
      assert Owners(m, l) == Owners(k, l);
    }
  }

  /** The end of lock_release: the owner's place is free again. */
  lemma FinishReleaseKeeps(k: State)
    requires Inv(k) && Unblockable(k) && k.pc[k.running].Releasing? && OfLock(k.pc[k.running].l) in k.semas
    ensures var l, j := k.pc[k.running].l, k.(pc := k.pc[k.running := Free]);
      Unblockable(j) && Inv(Up(j, OfLock(l)))
  {
    hide SemasOk, LocksOk, SleepersWakeable, Up, ReadyOk, WaitersOk, SleepersOk, ThreadOk;
    var l, j := k.pc[k.running].l, k.(pc := k.pc[k.running := Free]);
    LeaveLock(k, j);
    hide Threads;
    UpKeeps(j, OfLock(l));
    UpFrame(j, OfLock(l));
    FreedLocks(k, Up(j, OfLock(l)), l);
  }

  lemma FreedLocks(k: State, m: State, l: nat)
    requires LocksOk(k) && OfLock(l) in k.semas && OfLock(l) in m.semas && k.running in k.pc && k.pc[k.running] == Releasing(l)
    requires m.pc == k.pc[k.running := Free] && m.holders == k.holders && m.semas == k.semas[OfLock(l) := m.semas[OfLock(l)]]
    requires m.semas[OfLock(l)].value == k.semas[OfLock(l)].value + 1
    ensures LocksOk(m)
  {
    forall x | x in m.holders ensures LockOk(m, x) {
      assert LockOk(k, x);
      assert Owners(m, x) == if x == l then Owners(k, x) - {k.running} else Owners(k, x);
    }
  }

  /** Leaving or entering a multi-step lock operation moves no thread between lists. */
  lemma LeaveLock(k: State, j: State)
    requires Placed(k, Some(k.running)) && SemasOk(k)
    requires j.status == k.status && j.running == k.running && j.ready == k.ready && j.sleepers == k.sleepers
    requires j.arrivals == k.arrivals && j.semas == k.semas && j.holders.Keys == k.holders.Keys
    requires k.running in j.pc && j.pc == k.pc[k.running := j.pc[k.running]]
    requires !k.pc[k.running].InDown? && !k.pc[k.running].Sleeping?
    requires j.pc[k.running] == Free || (j.pc[k.running].Releasing? && k.running != IDLE && j.pc[k.running].l in k.holders)
    ensures Placed(j, Some(j.running)) && SemasOk(j)
    ensures Unblockable(k) ==> Unblockable(j)
  {
    assert ThreadOk(k, Some(k.running), k.running);
    forall t | t in j.status ensures ThreadOk(j, Some(j.running), t) {
      assert ThreadOk(k, Some(k.running), t);
    }
    forall t: nat ensures t in j.ready <==> OnReady(j, t) {
      assert t in k.ready <==> OnReady(k, t);
    }
    LeaveLists(k, j);
  }

  lemma LeaveLists(k: State, j: State)
    requires WaitersOk(k) && SleepersOk(k) && SemasOk(k)
    requires j.status == k.status && j.running == k.running && j.sleepers == k.sleepers
    requires j.arrivals == k.arrivals && j.semas == k.semas && k.running in k.pc
    requires k.running in j.pc && j.pc == k.pc[k.running := j.pc[k.running]]
    requires !k.pc[k.running].InDown? && !k.pc[k.running].Sleeping? && !j.pc[k.running].InDown? && !j.pc[k.running].Sleeping?
    ensures WaitersOk(j) && SleepersOk(j) && SemasOk(j)
  {
    forall t: nat ensures SleepsIn(j.sleepers, t) <==> OnSleep(j, t) {
      assert SleepsIn(k.sleepers, t) <==> OnSleep(k, t);
    }
    forall r | r in j.semas ensures QueueOk(j, r, j.semas[r].waiters) && SemaOk(j, r) {
      assert QueueOk(k, r, k.semas[r].waiters) && SemaOk(k, r);
      assert Woken(j, r) == Woken(k, r);
      assert forall t: nat :: OnWait(j, r, t) <==> OnWait(k, r, t);
      QueueKept(k, j, r);
    }
  }

  /** lock_acquire records the holder, of which there was none. */
  lemma TakeHolderKeeps(k: State)
    requires Inv(k) && k.pc[k.running].Acquired? && k.pc[k.running].l in k.holders
    ensures Inv(k.(holders := k.holders[k.pc[k.running].l := Some(k.running)], pc := k.pc[k.running := Free]))
  {
    var l := k.pc[k.running].l;
    var m := k.(holders := k.holders[l := Some(k.running)], pc := k.pc[k.running := Free]);
    assert k.holders[l].None? by {
      assert LockOk(k, l);
      if k.holders[l].Some? {
        MutualExclusion(k, l, k.running, k.holders[l].value);
      }
    }
    LeaveLock(k, m);
    hide Placed, SemasOk;
    forall x | x in m.holders ensures LockOk(m, x) {
      assert LockOk(k, x);
      assert Owners(m, x) == Owners(k, x);
    }
  }

  /** lock_release clears the holder; the thread still counts as owner until its sema_up. */
  lemma ReleaseKeeps(k: State, l: nat)
    requires Inv(k) && k.pc[k.running] == Free && l in k.holders && k.holders[l] == Some(k.running) && k.running != IDLE
    ensures Inv(k.(holders := k.holders[l := None], pc := k.pc[k.running := Releasing(l)]))
  {
    var m := k.(holders := k.holders[l := None], pc := k.pc[k.running := Releasing(l)]);
    LeaveLock(k, m);
    hide Placed, SemasOk;
    forall x | x in m.holders ensures LockOk(m, x) {
      assert LockOk(k, x);
      assert Owners(m, x) == Owners(k, x);
    }
  }
}
