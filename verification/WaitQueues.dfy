/** The order in which threads that wait for a semaphore, or for a lock, are served (src/threads/synch.c:60-121,
    192-240): first come, first served, over whole runs. */
module WaitQueues {
  import opened Options
  import opened Sequences
  import opened SequenceSort
  import opened Kernel
  import opened KernelInvariant
  import opened KernelRuns

  /** The step blocks the running thread on semaphore s. */
  predicate Waits(k: State, a: Step, s: SemaId)
    requires Enabled(k, a) && s in k.semas
  {
    && k.semas[s].value == 0
    && match a
       case Down(n) => s == Plain(n)
       case Retry => s == k.pc[k.running].s
       case Acquire(l) => s == OfLock(l) && k.holders[l] != Some(k.running)
       case _ => false
  }

  /** Who starts to wait for s in a step. */
  function Came(k: State, a: Step, s: SemaId): (c: seq<nat>)
    requires Enabled(k, a) && s in k.semas
  {
    if Waits(k, a, s) then [k.running] else []
  }

  /** Who stops waiting for s in a step: the one that is blocked on it before and not after. */
  ghost function Went(k: State, a: Step, s: SemaId): (w: set<nat>)
    requires Enabled(k, a) && Unblockable(k)
  {
    set t | t in k.status && OnWait(k, s, t) && !OnWait(Next(k, a), s, t)
  }

  /** From k to n the list of waiters of s loses its first thread, if ups and there is one, and then gains c. */
  ghost predicate Advances(k: State, n: State, s: SemaId, ups: bool, c: seq<nat>)
    requires s in k.semas
  {
    && s in n.semas
    && var q := k.semas[s].waiters;
    n.semas[s].waiters == (if ups && q != [] then q[1..] else q) + c
  }

  /** The list of waiters loses its first thread in a sema_up that finds one, and gains the running thread at its end
      when that blocks. */
  lemma ListStep(k: State, a: Step, s: SemaId)
    requires Inv(k) && Enabled(k, a) && Unblockable(k) && s in k.semas
    ensures Advances(k, Next(k, a), s, Ups(k, a, s), Came(k, a, s))
  {
    hide Inv, Advances, Next, Unblockable, Enabled, Ups, Came;
    if a.Down? || a.Retry? || a.Acquire? {
      ListDown(k, a, s);
    } else if a.SemaUp? || a.FinishRelease? {
      ListUp(k, a, s);
    } else {
      ListSame(k, a, s);
    }
  }

  lemma ListSame(k: State, a: Step, s: SemaId)
    requires Inv(k) && Enabled(k, a) && Unblockable(k) && s in k.semas
    requires !a.Down? && !a.Retry? && !a.Acquire? && !a.SemaUp? && !a.FinishRelease?
    ensures Advances(k, Next(k, a), s, false, []) && !Ups(k, a, s) && Came(k, a, s) == []
  {
    hide Inv, Tick, SleepersWakeable, Schedule, InsertOrdered;
    if a.TimerTick? {
      TickSemas(k);
    } else {
      ScheduleSemas();
    }
  }

  lemma ListDown(k: State, a: Step, s: SemaId)
    requires Enabled(k, a) && Unblockable(k) && s in k.semas && (a.Down? || a.Retry? || a.Acquire?)
    ensures Advances(k, Next(k, a), s, false, Came(k, a, s)) && !Ups(k, a, s)
  {
    hide SleepersWakeable, DownOnce;
    DownList(k, if a.Down? then Plain(a.n) else if a.Retry? then k.pc[k.running].s else OfLock(a.l), s);
  }

  lemma ListUp(k: State, a: Step, s: SemaId)
    requires Enabled(k, a) && Unblockable(k) && s in k.semas && (a.SemaUp? || a.FinishRelease?)
    ensures Advances(k, Next(k, a), s, Ups(k, a, s), []) && Came(k, a, s) == []
  {
    hide SleepersWakeable, Up;
    if a.SemaUp? {
      UpList(k, Plain(a.n), s);
    } else {
      UpList(k.(pc := k.pc[k.running := Free]), OfLock(k.pc[k.running].l), s);
    }
  }

  lemma DownList(k: State, r: SemaId, s: SemaId)
    requires r in k.semas && s in k.semas
    ensures var n := DownOnce(k, r);
      s in n.semas && n.semas[s].waiters == if r == s && k.semas[s].value == 0 then k.semas[s].waiters + [k.running] else k.semas[s].waiters
  {
  }

  lemma UpList(k: State, r: SemaId, s: SemaId)
    requires r in k.semas && s in k.semas && (k.semas[r].waiters != [] ==> Wakeable(k, k.semas[r].waiters[0]))
    ensures var n, q := Up(k, r), k.semas[s].waiters; s in n.semas && n.semas[s].waiters == if r == s && q != [] then q[1..] else q
  {
  }

  /** A step stops the waiting of the first in line, if it is a sema_up, and of nobody else; that thread is then the last
      on the ready list. */
  lemma FirstGoes(k: State, a: Step, s: SemaId)
    requires Inv(k) && Enabled(k, a) && Unblockable(k) && s in k.semas
    ensures var q := k.semas[s].waiters;
      && Went(k, a, s) == (if Ups(k, a, s) && q != [] then {q[0]} else {})
      && (Ups(k, a, s) && q != [] ==>
            var n := Next(k, a); n.ready == k.ready + [q[0]] && q[0] in n.status && n.status[q[0]] == Ready)
  {
    hide Inv, Enabled, Unblockable, Next, OnWait, Ups, Waits;
    var n, q := Next(k, a), k.semas[s].waiters;
    StepKeeps(k, a);
    ListStep(k, a, s);
    WaiterSets(k, s);
    WaiterSets(n, s);
    RunningNotWaiting(k, s);
    forall t: nat ensures t in Went(k, a, s) <==> (Ups(k, a, s) && q != [] && t == q[0]) {
      Membership(q, Ups(k, a, s) && q != [], Came(k, a, s), t, k.running);
    }
    if Ups(k, a, s) && q != [] {
      UpReadies(k, a, s);
    }
  }

  lemma WaiterSets(k: State, s: SemaId)
    requires Inv(k) && s in k.semas
    ensures Distinct(k.semas[s].waiters)
    ensures forall t: nat :: (t in k.semas[s].waiters <==> OnWait(k, s, t)) && (OnWait(k, s, t) ==> t in k.status)
  {
    assert QueueOk(k, s, k.semas[s].waiters);
  }

  lemma RunningNotWaiting(k: State, s: SemaId)
    requires Inv(k) && s in k.semas
    ensures k.running !in k.semas[s].waiters
  {
    OneList(k, k.running);
  }

  lemma Membership(q: seq<nat>, pop: bool, c: seq<nat>, t: nat, running: nat)
    requires Distinct(q) && (pop ==> q != []) && (c == [] || c == [running]) && running !in q
    ensures var r := (if pop then q[1..] else q) + c;
      t in q && t !in r <==> pop && t == q[0]
  {
    if pop {
      assert q == [q[0]] + q[1..];
    }
  }

  lemma UpReadies(k: State, a: Step, s: SemaId)
    requires Inv(k) && Enabled(k, a) && Unblockable(k) && s in k.semas && Ups(k, a, s) && k.semas[s].waiters != []
    ensures var n, t := Next(k, a), k.semas[s].waiters[0]; n.ready == k.ready + [t] && t in n.status && n.status[t] == Ready
  {
    hide Inv, SleepersWakeable;
  }

  // ----- runs -----

  /** Who blocked on s in a run, in order. */
  ghost function BlockedIn(k: State, steps: seq<Step>, s: SemaId): (h: seq<nat>)
    requires Possible(k, steps)
    decreases |steps|
  {
    if steps == [] then [] else
    (if s in k.semas then Came(k, steps[0], s) else []) + BlockedIn(Next(k, steps[0]), steps[1..], s)
  }

  /** Who was made ready from s in a run, in order. */
  ghost function ServedIn(k: State, steps: seq<Step>, s: SemaId): (h: seq<nat>)
    requires Possible(k, steps)
    decreases |steps|
  {
    if steps == [] then [] else Listed(Went(k, steps[0], s)) + ServedIn(Next(k, steps[0]), steps[1..], s)
  }

  /** The members of a set of at most one. */
  ghost function Listed(w: set<nat>): (l: seq<nat>)
    ensures w == {} ==> l == []
    ensures |w| == 1 ==> |l| == 1 && w == {l[0]}
  {
    if |w| != 1 then [] else
    var t :| t in w;
    Only(w, t);
    [t]
  }

  lemma Only(w: set<nat>, t: nat)
    requires |w| == 1 && t in w
    ensures w == {t}
  {
    assert |w - {t}| == 0;
  }

  /** In every run, who waited at the start and who blocked since, in this order, are who was served and who waits now. */
  lemma {:induction false} QueueRun(k: State, steps: seq<Step>, s: SemaId)
    requires Inv(k) && Possible(k, steps) && s in k.semas
    ensures s in Final(k, steps).semas
    ensures k.semas[s].waiters + BlockedIn(k, steps, s) == ServedIn(k, steps, s) + Final(k, steps).semas[s].waiters
    decreases |steps|
  {
    hide Inv, Unblockable, Next, Enabled, Ups, Waits, Went;
    if steps != [] {
      var a := steps[0];
      var n := Next(k, a);
      StepKeeps(k, a);
      ListStep(k, a, s);
      FirstGoes(k, a, s);
      QueueRun(n, steps[1..], s);
      var q := k.semas[s].waiters;
      Chained(q, Listed(Went(k, a, s)), Came(k, a, s), n.semas[s].waiters,
              BlockedIn(n, steps[1..], s), ServedIn(n, steps[1..], s), Final(n, steps[1..]).semas[s].waiters);
    }
  }

  lemma Chained(q: seq<nat>, gone: seq<nat>, came: seq<nat>, r: seq<nat>, blocked: seq<nat>, served: seq<nat>, last: seq<nat>)
    requires (gone == [] && r == q + came) || (q != [] && gone == [q[0]] && r == q[1..] + came)
    requires r + blocked == served + last
    ensures q + (came + blocked) == (gone + served) + last
  {
    assert q + came == gone + r;
    assert gone + (r + blocked) == gone + (served + last);
    assert q + (came + blocked) == q + came + blocked;
    assert gone + r + blocked == gone + (r + blocked);
  }

  /** From boot on, for every semaphore and for the one inside every lock: the i-th thread that is made ready is the
      i-th that blocked, and those that blocked and were not made ready are the waiters. */
  lemma ServedInOrder(k: State, steps: seq<Step>, s: SemaId)
    requires Booted(k) && Possible(k, steps) && s in k.semas
    ensures s in Final(k, steps).semas
    ensures var b, r := BlockedIn(k, steps, s), ServedIn(k, steps, s);
      && b == r + Final(k, steps).semas[s].waiters
      && forall i | 0 <= i < |r| :: r[i] == b[i]
  {
    assert k.semas[s].waiters == [];
    BootedInv(k);
    hide Booted, Inv, Possible, BlockedIn, ServedIn, Final;
    QueueRun(k, steps, s);
    assert [] + BlockedIn(k, steps, s) == BlockedIn(k, steps, s);
  }

  // ----- bounded waiting -----

  /** A waiter moves up by one with every sema_up, until it is served. */
  lemma {:induction false} WaiterMovesUp(k: State, steps: seq<Step>, s: SemaId, i: nat)
    requires Inv(k) && Possible(k, steps) && s in k.semas && i < |k.semas[s].waiters| && UpCount(k, steps, s) <= i
    ensures s in Final(k, steps).semas
    ensures var q, c := Final(k, steps).semas[s].waiters, UpCount(k, steps, s); i - c < |q| && q[i - c] == k.semas[s].waiters[i]
    decreases |steps|
  {
    hide Inv, Unblockable, Next, Enabled, Ups, Waits;
    if steps != [] {
      StepKeeps(k, steps[0]);
      ListStep(k, steps[0], s);
      WaiterMovesUp(Next(k, steps[0]), steps[1..], s, if Ups(k, steps[0], s) then i - 1 else i);
    }
  }

  /** The waiter at index i is made ready by exactly the (i + 1)th sema_up. */
  lemma ServedByUp(k: State, steps: seq<Step>, a: Step, s: SemaId, i: nat)
    requires Inv(k) && Possible(k, steps) && s in k.semas && i < |k.semas[s].waiters| && UpCount(k, steps, s) == i
    requires Enabled(Final(k, steps), a) && Ups(Final(k, steps), a, s)
    ensures Unblockable(Final(k, steps)) && Went(Final(k, steps), a, s) == {k.semas[s].waiters[i]}
  {
    hide Inv, Unblockable, Next, Enabled, Ups, Waits, Went;
    RunKeeps(k, steps);
    WaiterMovesUp(k, steps, s, i);
    FirstGoes(Final(k, steps), a, s);
  }
}
