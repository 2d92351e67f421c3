/** Condition variables (src/threads/synch.c:263-342): a list of waiters, each with a semaphore of its own. The lock
    is its holder; the steps are those between which other threads can run. */
module ConditionVariables {
  import opened Options
  import opened Sequences

  /** Where a thread inside cond_wait is: on the list with the lock still held; past lock_release and about to call
      sema_down; blocked in it; unblocked by sema_up; past sema_down and about to take the lock again. */
  datatype Phase = Queued | Released | Blocked | Unblocked | Passed

  /** A thread inside cond_wait and the value of its semaphore. */
  datatype Waiter = Waiter(phase: Phase, value: nat)

  /** A lock and one condition variable. The last three fields are history: who joined the list, who was taken off
      it by a signal, and who got past its sema_down, each in order. */
  datatype Monitor = Monitor(
    holder: Option<nat>,
    list: seq<nat>,
    inside: map<nat, Waiter>,
    joined: seq<nat>,
    signalled: seq<nat>,
    passed: seq<nat>)

  function Fresh(): (m: Monitor)
  {
    Monitor(None, [], map[], [], [], [])
  }

  datatype Step =
    | Acquire(t: nat)    // lock_acquire outside cond_wait
    | Release(t: nat)    // lock_release outside cond_wait
    | Join(t: nat)       // cond_wait up to its lock_release
    | LetGo(t: nat)      // its lock_release
    | Down(t: nat)       // one pass through the loop of its sema_down
    | Reacquire(t: nat)  // its lock_acquire
    | Signal(t: nat)     // cond_signal, or one round of cond_broadcast

  predicate Outside(m: Monitor, t: nat)
  {
    t !in m.inside
  }

  predicate Holds(m: Monitor, t: nat)
  {
    m.holder == Some(t)
  }

  predicate At(m: Monitor, t: nat, p: Phase)
  {
    t in m.inside && m.inside[t].phase == p
  }

  predicate Enabled(m: Monitor, a: Step)
  {
    match a
    case Acquire(t) => m.holder.None? && Outside(m, t)
    case Release(t) => Holds(m, t) && Outside(m, t)
    case Join(t) => Holds(m, t) && Outside(m, t)
    case LetGo(t) => At(m, t, Queued)
    case Down(t) => At(m, t, Released) || At(m, t, Unblocked)
    case Reacquire(t) => At(m, t, Passed) && m.holder.None?
    case Signal(t) => Holds(m, t) && Outside(m, t)
  }

  /** sema_up of a waiter's semaphore. */
  function Up(w: Waiter): (r: Waiter)
  {
    Waiter(if w.phase == Blocked then Unblocked else w.phase, w.value + 1)
  }

  function Signalled(m: Monitor): (n: Monitor)
    requires m.list != [] ==> m.list[0] in m.inside
  {
    if m.list == [] then m else
    var u := m.list[0];
    m.(list := m.list[1..], inside := m.inside[u := Up(m.inside[u])], signalled := m.signalled + [u])
  }

  function Next(m: Monitor, a: Step): (n: Monitor)
    requires Enabled(m, a) && (m.list != [] ==> m.list[0] in m.inside)
  {
    match a
    case Acquire(t) => m.(holder := Some(t))
    case Release(t) => m.(holder := None)
    case Join(t) => m.(list := m.list + [t], inside := m.inside[t := Waiter(Queued, 0)], joined := m.joined + [t])
    case LetGo(t) => m.(holder := None, inside := m.inside[t := m.inside[t].(phase := Released)])
    case Down(t) =>
      var w := m.inside[t];
      if w.value == 0 then m.(inside := m.inside[t := w.(phase := Blocked)])
      else m.(inside := m.inside[t := Waiter(Passed, w.value - 1)], passed := m.passed + [t])
    case Reacquire(t) => m.(holder := Some(t), inside := m.inside - {t})
    case Signal(_) => Signalled(m)
  }

  // ----- what every step keeps -----

  /** The threads that have been signalled and not yet got past their sema_down. */
  ghost function Pending(m: Monitor): (p: set<nat>)
  {
    set t | t in m.inside && m.inside[t].value > 0
  }

  /** A waiter is on the list exactly until it is signalled, and then has one up to take; it is blocked only while it
      is on the list. */
  ghost predicate WaiterOk(m: Monitor, t: nat)
    requires t in m.inside
  {
    var w := m.inside[t];
    && (t in m.list <==> w.value == 0 && w.phase != Passed)
    && w.value <= 1
    && (w.phase == Queued ==> Holds(m, t) && t in m.list)
    && (w.phase == Blocked ==> w.value == 0)
    && (w.phase == Unblocked ==> w.value == 1)
    && (w.phase == Passed ==> w.value == 0)
    && (Holds(m, t) ==> w.phase == Queued)
  }

  ghost predicate Inv(m: Monitor)
  {
    && Distinct(m.list) && (forall i | 0 <= i < |m.list| :: m.list[i] in m.inside)
    && (forall t | t in m.inside :: WaiterOk(m, t))
    && m.joined == m.signalled + m.list
    && |m.signalled| == |m.passed| + |Pending(m)|
  }

  lemma FreshInv()
    ensures Inv(Fresh())
  {
    assert Pending(Fresh()) == {};
  }

  /** Every step keeps the invariant. */
  lemma StepKeeps(m: Monitor, a: Step)
    requires Inv(m) && Enabled(m, a)
    ensures m.list != [] ==> m.list[0] in m.inside
    ensures Inv(Next(m, a))
  {
    var n := Next(m, a);
    match a {
      case Acquire(t) => SameInside(m, n);
      case Release(t) => SameInside(m, n);
      case Join(t) => JoinKeeps(m, t);
      case LetGo(t) => PhaseKeeps(m, n, t);
      case Down(t) =>
        if m.inside[t].value == 0 {
          PhaseKeeps(m, n, t);
        } else {
          PassKeeps(m, t);
        }
      case Reacquire(t) => ReacquireKeeps(m, t);
      case Signal(t) => SignalKeeps(m, t);
    }
  }

  lemma SameInside(m: Monitor, n: Monitor)
    requires Inv(m) && n == m.(holder := n.holder) && forall t | t in m.inside :: n.holder != Some(t) && m.holder != Some(t)
    ensures Inv(n)
  {
    assert Pending(n) == Pending(m);
    forall t | t in n.inside ensures WaiterOk(n, t) {
      assert WaiterOk(m, t);
    }
  }

  lemma JoinKeeps(m: Monitor, t: nat)
    requires Inv(m) && Enabled(m, Join(t))
    ensures Inv(Next(m, Join(t)))
  {
    var n := Next(m, Join(t));
    assert t !in m.list;
    assert Pending(n) == Pending(m);
    assert n.list[|m.list|] == t;
    forall u | u in n.inside ensures WaiterOk(n, u) {
      assert u in m.inside ==> WaiterOk(m, u);
    }
  }

  /** A step that changes where a thread is and not its semaphore. */
  lemma PhaseKeeps(m: Monitor, n: Monitor, t: nat)
    requires Inv(m) && t in m.inside && (m.inside[t].phase == Queued || m.inside[t].phase == Released)
    requires if m.inside[t].phase == Queued then n == m.(holder := None, inside := m.inside[t := m.inside[t].(phase := Released)])
             else m.inside[t].value == 0 && n == m.(inside := m.inside[t := m.inside[t].(phase := Blocked)])
    ensures Inv(n)
  {
    assert Pending(n) == Pending(m);
    assert WaiterOk(m, t);
    forall u | u in n.inside ensures WaiterOk(n, u) {
      assert WaiterOk(m, u);
    }
  }

  lemma PassKeeps(m: Monitor, t: nat)
    requires Inv(m) && Enabled(m, Down(t)) && m.inside[t].value > 0
    ensures Inv(Next(m, Down(t)))
  {
    var n := Next(m, Down(t));
    assert WaiterOk(m, t);
    assert Pending(n) == Pending(m) - {t} && t in Pending(m);
    forall u | u in n.inside ensures WaiterOk(n, u) {
      assert WaiterOk(m, u);
    }
  }

  lemma ReacquireKeeps(m: Monitor, t: nat)
    requires Inv(m) && Enabled(m, Reacquire(t))
    ensures Inv(Next(m, Reacquire(t)))
  {
    var n := Next(m, Reacquire(t));
    assert WaiterOk(m, t);
    assert Pending(n) == Pending(m);
    forall u | u in n.inside ensures WaiterOk(n, u) {
      assert WaiterOk(m, u);
    }
    forall i | 0 <= i < |n.list| ensures n.list[i] in n.inside {
      assert m.list[i] in m.list;
    }
  }

  lemma SignalKeeps(m: Monitor, t: nat)
    requires Inv(m) && Enabled(m, Signal(t))
    ensures m.list != [] ==> m.list[0] in m.inside
    ensures Inv(Next(m, Signal(t)))
  {
    if m.list != [] {
      SignalCounts(m, t);
      SignalPlaces(m, t);
      assert m.list == [m.list[0]] + m.list[1..];
    }
  }

  lemma SignalCounts(m: Monitor, t: nat)
    requires Inv(m) && Enabled(m, Signal(t)) && m.list != []
    ensures m.list[0] in m.inside && |Pending(Next(m, Signal(t)))| == |Pending(m)| + 1
  {
    var n, u := Next(m, Signal(t)), m.list[0];
    assert WaiterOk(m, u);
    assert Pending(n) == Pending(m) + {u} && u !in Pending(m);
  }

  lemma SignalPlaces(m: Monitor, t: nat)
    requires Inv(m) && Enabled(m, Signal(t)) && m.list != []
    ensures m.list[0] in m.inside
    ensures var n := Next(m, Signal(t));
      && Distinct(n.list) && (forall i | 0 <= i < |n.list| :: n.list[i] in n.inside) && forall v | v in n.inside :: WaiterOk(n, v)
  {
    hide Pending;
    var n, u := Next(m, Signal(t)), m.list[0];
    assert WaiterOk(m, u);
    forall v | v in n.inside ensures WaiterOk(n, v) {
      assert WaiterOk(m, v);
      Tail(m.list, v);
    }
  }

  lemma Tail(l: seq<nat>, v: nat)
    requires l != [] && Distinct(l)
    ensures v in l[1..] <==> v in l && v != l[0]
  {
    assert l == [l[0]] + l[1..];
  }

  // ----- runs -----

  ghost predicate Possible(m: Monitor, steps: seq<Step>)
    decreases |steps|
  {
    steps == [] ||
    (Enabled(m, steps[0]) && (m.list != [] ==> m.list[0] in m.inside) && Possible(Next(m, steps[0]), steps[1..]))
  }

  ghost function Final(m: Monitor, steps: seq<Step>): (n: Monitor)
    requires Possible(m, steps)
    decreases |steps|
  {
    if steps == [] then m else Final(Next(m, steps[0]), steps[1..])
  }

  lemma {:induction false} RunKeeps(m: Monitor, steps: seq<Step>)
    requires Inv(m) && Possible(m, steps)
    ensures Inv(Final(m, steps))
    decreases |steps|
  {
    hide Inv, Next, Enabled;
    if steps != [] {
      StepKeeps(m, steps[0]);
      RunKeeps(Next(m, steps[0]), steps[1..]);
    }
  }

  /** In every run signals reach the waiters in the order in which they joined: the i-th signal that finds anybody
      goes to the i-th thread that joined. */
  lemma SignalsInOrder(steps: seq<Step>, i: nat)
    requires Possible(Fresh(), steps) && i < |Final(Fresh(), steps).signalled|
    ensures var n := Final(Fresh(), steps); i < |n.joined| && n.signalled[i] == n.joined[i]
  {
    hide Possible, Final, Fresh, WaiterOk;
    FreshInv();
    RunKeeps(Fresh(), steps);
    var n := Final(Fresh(), steps);
    assert n.joined[i] == (n.signalled + n.list)[i];
  }

  /** In every run one signal lets one waiter past: those past, those signalled and those still listed make up all
      that ever joined. */
  lemma OnePerSignal(steps: seq<Step>)
    requires Possible(Fresh(), steps)
    ensures var n := Final(Fresh(), steps);
      |n.signalled| == |n.passed| + |Pending(n)| && |n.joined| == |n.passed| + |Pending(n)| + |n.list|
  {
    hide Possible, Final, Fresh, WaiterOk, Pending;
    FreshInv();
    RunKeeps(Fresh(), steps);
  }

  /** No signal is lost: a waiter that has been signalled, even between its lock_release and its sema_down, is not
      blocked, and its next pass through sema_down goes through. */
  lemma NoSignalLost(steps: seq<Step>, t: nat)
    requires Possible(Fresh(), steps) && t in Final(Fresh(), steps).inside
    requires t !in Final(Fresh(), steps).list && !At(Final(Fresh(), steps), t, Passed)
    ensures var n := Final(Fresh(), steps);
      && n.inside[t].phase != Blocked && Enabled(n, Down(t)) && (n.list != [] ==> n.list[0] in n.inside)
      && At(Next(n, Down(t)), t, Passed) && Next(n, Down(t)).passed == n.passed + [t]
  {
    hide Possible, Final, Fresh;
    FreshInv();
    RunKeeps(Fresh(), steps);
    assert WaiterOk(Final(Fresh(), steps), t);
  }

  // ----- returning -----

  /** How often thread t has joined the list, has been signalled, and has got past its sema_down. */
  function Times(h: seq<nat>, t: nat): (n: nat)
  {
    multiset(h)[t]
  }

  lemma TimesMore(h: seq<nat>, u: nat, t: nat)
    ensures Times(h + [u], t) == Times(h, t) + if t == u then 1 else 0
  {
  }

  /** Each call of cond_wait joins once, is signalled once and passes once, in this order. */
  ghost predicate Balanced(m: Monitor, t: nat)
  {
    && Times(m.joined, t) == Times(m.passed, t) + (if t in m.inside && m.inside[t].phase != Passed then 1 else 0)
    && Times(m.signalled, t) == Times(m.passed, t) + (if t in m.inside && m.inside[t].value > 0 then 1 else 0)
  }

  lemma StepBalances(m: Monitor, a: Step, t: nat)
    requires Inv(m) && Enabled(m, a) && (m.list != [] ==> m.list[0] in m.inside) && Balanced(m, t)
    ensures Balanced(Next(m, a), t)
  {
    hide Times;
    if a.Join? {
      TimesMore(m.joined, a.t, t);
    } else if a.Down? {
      assert WaiterOk(m, a.t);
      TimesMore(m.passed, a.t, t);
    } else if a.Reacquire? {
      assert WaiterOk(m, a.t);
    } else if a.Signal? && m.list != [] {
      assert WaiterOk(m, m.list[0]);
      TimesMore(m.signalled, m.list[0], t);
    }
  }

  lemma {:induction false} RunBalances(m: Monitor, steps: seq<Step>, t: nat)
    requires Inv(m) && Possible(m, steps) && Balanced(m, t)
    ensures Balanced(Final(m, steps), t)
    decreases |steps|
  {
    hide Inv, Next, Enabled, Balanced;
    if steps != [] {
      StepKeeps(m, steps[0]);
      StepBalances(m, steps[0], t);
      RunBalances(Next(m, steps[0]), steps[1..], t);
    }
  }

  /** In every run the step that brings a thread out of cond_wait takes the free lock for it, and by then every one of
      its calls has been signalled and has got past its sema_down, exactly once each. */
  lemma ReturnsWithLock(steps: seq<Step>, a: Step, t: nat)
    requires Possible(Fresh(), steps) && Enabled(Final(Fresh(), steps), a) && t in Final(Fresh(), steps).inside
    ensures var m := Final(Fresh(), steps); m.list != [] ==> m.list[0] in m.inside
    ensures var m := Final(Fresh(), steps); var n := Next(m, a);
      t !in n.inside ==>
        && a == Reacquire(t) && m.holder.None? && Holds(n, t)
        && Times(n.joined, t) == Times(n.signalled, t) == Times(n.passed, t)
  {
    hide Possible, Final, Fresh, Times;
    BackIn(steps, t);
    var m := Final(Fresh(), steps);
    StepBalances(m, a, t);
  }

  /** The same for a thread that is outside in any reachable state: none of its calls is still open. */
  lemma NobodyBackEarly(steps: seq<Step>, t: nat)
    requires Possible(Fresh(), steps) && t !in Final(Fresh(), steps).inside
    ensures var m := Final(Fresh(), steps); Times(m.joined, t) == Times(m.signalled, t) == Times(m.passed, t)
  {
    hide Possible, Final, Fresh, Times;
    BackIn(steps, t);
  }

  lemma BackIn(steps: seq<Step>, t: nat)
    requires Possible(Fresh(), steps)
    ensures var m := Final(Fresh(), steps); Inv(m) && Balanced(m, t) && (m.list != [] ==> m.list[0] in m.inside)
  {
    FreshInv();
    RunKeeps(Fresh(), steps);
    RunBalances(Fresh(), steps, t);
  }

  // ----- cond_broadcast -----

  /** The loop of cond_broadcast, with the lock held all along: every waiter gets its up, in order. */
  method Broadcast(m: Monitor, t: nat) returns (n: Monitor)
    requires Inv(m) && Enabled(m, Signal(t))
    ensures Inv(n) && n.list == [] && n.signalled == m.signalled + m.list && n.holder == m.holder && n.joined == m.joined
    ensures forall i | 0 <= i < |m.list| :: Served(n.inside, m.list[i])
  {
    assert Distinct(m.list);
    hide Inv, Next, Served;
    n := m;
    ghost var i := 0;
    while n.list != []
      invariant Inv(n) && Enabled(n, Signal(t)) && n.holder == m.holder && n.joined == m.joined
      invariant i <= |m.list| && forall j | 0 <= j < i :: Served(n.inside, m.list[j])
      invariant n.list == m.list[i..] && n.signalled == m.signalled + m.list[..i]
      decreases |n.list|
    {
      StepKeeps(n, Signal(t));
      SignalStep(n, t);
      assert m.list[..i + 1] == m.list[..i] + [m.list[i]];
      n := Next(n, Signal(t));
      i := i + 1;
    }
    assert m.list[..i] == m.list;
  }

  lemma SignalStep(m: Monitor, t: nat)
    requires Inv(m) && Enabled(m, Signal(t)) && m.list != []
    ensures m.list[0] in m.inside
    ensures var n := Next(m, Signal(t));
      && n.list == m.list[1..] && n.signalled == m.signalled + [m.list[0]] && n.holder == m.holder && n.joined == m.joined
      && Enabled(n, Signal(t)) && n.inside == m.inside[m.list[0] := Up(m.inside[m.list[0]])]
      && Served(n.inside, m.list[0]) && forall u: nat | u != m.list[0] && Served(m.inside, u) :: Served(n.inside, u)
  {
    assert WaiterOk(m, m.list[0]);
  }

  /** The thread has its up and is not blocked. */
  ghost predicate Served(inside: map<nat, Waiter>, u: nat)
  {
    u in inside && inside[u].value == 1 && inside[u].phase != Blocked
  }
}
