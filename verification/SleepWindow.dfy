/** timer_sleep as it runs (src/devices/timer.c:100-117): the thread joins the sleep list with interrupts on and blocks
    later. Interrupts that come in between can fail the assertion of thread_unblock, or yield the processor while the
    element of the running thread is linked into the sleep list. Here joining and blocking are two steps; it is stated
    exactly when either happens, and every run in which neither happens is a run of the machine of module Kernel. */
module SleepWindow {
  import opened Options
  import opened SequenceSort
  import opened Kernel
  import opened KernelInvariant
  import opened AlarmClock
  import opened KernelRuns
  import opened SleepRuns

  // ----- the interrupt handlers, with nothing assumed about the sleep list -----

  /** What a step does: the assertion of thread_unblock fails, or an element is linked into a second list, or the
      machine is in a new state. */
  datatype Outcome = Panicked | Tangled | Ran(k: State)

  /** repeated_check_blocked_list, with the assertion of thread_unblock. */
  function WakeLoop(k: State): (r: Outcome)
    ensures !r.Tangled?
    decreases |k.sleepers|
  {
    if k.sleepers == [] || k.ticks < k.sleepers[0].wake then Ran(k)
    else if !Wakeable(k, k.sleepers[0].tid) then Panicked
    else WakeLoop(WakeFirst(k))
  }

  /** The running thread's element is put at the end of the ready list: the first half of thread_yield. */
  function Pushed(k: State): (n: State)
  {
    k.(status := k.status[k.running := Ready], ready := if k.running != IDLE then k.ready + [k.running] else k.ready)
  }

  /** Thread t is on two of the ready list, the sleep list and the lists of the semaphores. */
  ghost predicate OnTwoLists(k: State, t: nat)
  {
    || (t in k.ready && SleepsIn(k.sleepers, t))
    || (exists s | s in k.semas :: t in k.semas[s].waiters && (t in k.ready || SleepsIn(k.sleepers, t)))
    || (exists s, r | s in k.semas && r in k.semas :: s != r && t in k.semas[s].waiters && t in k.semas[r].waiters)
  }

  ghost predicate SomeOnTwoLists(k: State)
  {
    exists t: nat :: OnTwoLists(k, t)
  }

  /** timer_interrupt, thread_tick, and the yield on return. */
  ghost function TimerInterrupt(k: State): (r: Outcome)
  {
    match WakeLoop(Later(k))
    case Ran(w) =>
      var n := w.(threadTicks := w.threadTicks + 1);
      if n.threadTicks < TIME_SLICE then Ran(n)
      else if SomeOnTwoLists(Pushed(n)) then Tangled
      else Ran(Schedule(Pushed(n)))
    case _ => Panicked
  }

  // ----- the machine in which joining and blocking are two steps -----

  /** A state and, if the running thread is on the sleep list and has yet to block, its wake-up time. */
  datatype Split = Split(k: State, joined: Option<int>)

  datatype Move =
    | Other(a: Step)  // any step but timer_sleep
    | Join(n: int)    // timer_sleep up to and including list_insert_ordered
    | Settle          // thread_block at the end of timer_sleep

  /** Steps that interrupt handlers take. */
  predicate FromHandler(a: Step)
  {
    a.TimerTick? || a.SemaUp? || a.TryDown?
  }

  ghost predicate FirstWaitersWakeable(k: State)
  {
    forall s | s in k.semas && k.semas[s].waiters != [] :: Wakeable(k, k.semas[s].waiters[0])
  }

  /** Between joining and blocking a thread takes no step of its own; only handlers run. */
  ghost predicate Allowed(s: Split, move: Move)
  {
    match move
    case Other(a) =>
      && !a.SleepFor? && Enabled(s.k, a) && FirstWaitersWakeable(s.k)
      && (if s.joined.Some? then FromHandler(a) else SleepersWakeable(s.k))
    case Join(_) => s.joined.None? && AtRest(s.k) && s.k.running != IDLE
    case Settle => s.joined.Some?
  }

  ghost function Do(s: Split, move: Move): (r: Outcome)
    requires Allowed(s, move)
  {
    match move
    case Join(n) => Ran(Bedded(s.k, n))
    case Settle => Ran(Block(s.k, Sleeping))
    case Other(a) =>
      if a.TimerTick? then TimerInterrupt(s.k)
      else if a.SemaUp? then Ran(Up(s.k, Plain(a.n)))
      else if a.TryDown? then
        Ran(if s.k.semas[Plain(a.n)].value > 0 then TakeValue(s.k, Plain(a.n), s.k.pc[s.k.running]) else s.k)
      else Ran(Next(s.k, a))
  }

  ghost function After(s: Split, move: Move): (n: Split)
    requires Allowed(s, move) && Do(s, move).Ran?
  {
    Split(Do(s, move).k, match move case Join(n) => Some(s.k.ticks + n) case Settle => None case Other(_) => s.joined)
  }

  // ----- what its states stand for -----

  /** The state k of the machine of module Kernel that s stands for: a thread that has joined counts as not yet having
      called timer_sleep. */
  ghost predicate Stands(s: Split, k: State)
  {
    && Inv(k)
    && (s.joined.None? ==> s.k == k)
    && (s.joined.Some? ==> AtRest(k) && k.running != IDLE && s.k == Bedded(k, s.joined.value - k.ticks))
  }

  /** What a move is to that machine: joining is nothing, and blocking is sleeping for the time that is left. */
  function Meaning(s: Split, move: Move): (steps: seq<Step>)
  {
    match move
    case Other(a) => [a]
    case Join(_) => []
    case Settle => if s.joined.Some? then [SleepFor(s.joined.value - s.k.ticks)] else []
  }

  // ----- the wake-up loop and the thread that is not blocked yet -----

  /** A newcomer that is not due stays behind all that are. */
  lemma InsertBehind(l: seq<Sleeper>, e: Sleeper)
    requires l != [] && l[0].wake <= e.wake
    ensures var r := InsertOrdered(WakesBefore, l, e);
      r != [] && r[0] == l[0] && r[1..] == InsertOrdered(WakesBefore, l[1..], e)
  {
    var i := Slot(WakesBefore, l[1..], e);
    assert Slot(WakesBefore, l, e) == i + 1;
    assert l[..i + 1] == [l[0]] + l[1..][..i] && l[i + 1..] == l[1..][i..];
  }

  lemma InsertFront(l: seq<Sleeper>, e: Sleeper)
    requires l == [] || e.wake < l[0].wake
    ensures var r := InsertOrdered(WakesBefore, l, e); r != [] && r[0] == e
  {
  }

  /** k with its running thread on the sleep list until tick w. */
  function Joined(k: State, w: int): (n: State)
  {
    Bedded(k, w - k.ticks)
  }

  lemma JoinedWakeFirst(k: State, w: int)
    requires k.sleepers != [] && k.sleepers[0].wake <= w && Wakeable(k, k.sleepers[0].tid)
    ensures var b := Joined(k, w);
      && b.sleepers != [] && b.sleepers[0] == k.sleepers[0] && Wakeable(b, b.sleepers[0].tid)
      && WakeFirst(b) == Joined(WakeFirst(k), w)
  {
    InsertBehind(k.sleepers, Sleeper(k.running, w, k.arrivals));
    hide InsertOrdered;
  }

  /** A thread that has joined and is not due: the loop wakes the others and leaves it where it is. */
  lemma {:induction false} LoopPassesBy(k: State, w: int)
    requires Inv(k) && k.ticks < w
    ensures SleepersWakeable(k) && WakeLoop(Joined(k, w)) == Ran(Joined(WakeDue(k), w))
    decreases |k.sleepers|
  {
    hide Inv, SleepersWakeable, InsertOrdered;
    OrderFacts(k);
    var e := Sleeper(k.running, w, k.arrivals);
    if k.sleepers == [] || k.ticks < k.sleepers[0].wake {
      NothingDue(k.sleepers, e, k.ticks);
    } else {
      WakeKeeps(k);
      JoinedWakeFirst(k, w);
      LoopPassesBy(WakeFirst(k), w);
    }
  }

  lemma NothingDue(l: seq<Sleeper>, e: Sleeper, now: int)
    requires now < e.wake && (l == [] || now < l[0].wake)
    ensures var r := InsertOrdered(WakesBefore, l, e); r != [] && now < r[0].wake
  {
    if l == [] || e.wake < l[0].wake {
      InsertFront(l, e);
    } else {
      InsertBehind(l, e);
    }
  }

  /** A thread that has joined and is due: the loop comes to it and finds it running. */
  lemma {:induction false} LoopFails(k: State, w: int)
    requires Inv(k) && w <= k.ticks
    ensures WakeLoop(Joined(k, w)) == Panicked
    decreases |k.sleepers|
  {
    hide Inv, SleepersWakeable, InsertOrdered;
    OrderFacts(k);
    RunningRuns(k);
    var e := Sleeper(k.running, w, k.arrivals);
    if k.sleepers == [] || w < k.sleepers[0].wake {
      InsertFront(k.sleepers, e);
    } else {
      WakeKeeps(k);
      JoinedWakeFirst(k, w);
      LoopFails(WakeFirst(k), w);
    }
  }

  lemma RunningRuns(k: State)
    requires Inv(k)
    ensures k.running in k.status && k.status[k.running] == Running
  {
    assert ThreadOk(k, Some(k.running), k.running);
  }

  /** Without anybody in between, the loop is the one of module Kernel. */
  lemma {:induction false} LoopWakesDue(k: State)
    requires SleepersWakeable(k)
    ensures WakeLoop(k) == Ran(WakeDue(k))
    decreases |k.sleepers|
  {
    if k.sleepers != [] && k.sleepers[0].wake <= k.ticks {
      LoopWakesDue(WakeFirst(k));
    }
  }

  lemma LoopLater(k: State)
    requires SleepersWakeable(k)
    ensures SleepersWakeable(Later(k)) && WakeLoop(Later(k)) == Ran(WakeDue(Later(k)))
  {
    hide WakeLoop, WakeDue;
    LoopWakesDue(Later(k));
  }

  // ----- one timer interrupt -----

  lemma {:induction false} StaysAtRest(k: State)
    requires SleepersWakeable(k) && AtRest(k)
    ensures AtRest(WakeDue(k)) && WakeDue(k).running == k.running
    decreases |k.sleepers|
  {
    if k.sleepers != [] && k.sleepers[0].wake <= k.ticks {
      StaysAtRest(WakeFirst(k));
    }
  }

  /** What a timer interrupt finds after its wake-up loop. */
  lemma WokenUp(k: State)
    requires Inv(k)
    ensures SleepersWakeable(k) && SleepersWakeable(Later(k)) && Inv(Later(k))
    ensures var w := WakeDue(Later(k));
      && Inv(w) && w.running == k.running && w.threadTicks == k.threadTicks && w.ticks == k.ticks + 1
      && (AtRest(k) ==> AtRest(w)) && Tick(k) == CountTick(w)
  {
    hide Inv, SleepersWakeable, WakeDue, CountTick;
    LaterKept(k);
    WakesExactlyDue(Later(k));
    if AtRest(k) {
      StaysAtRest(Later(k));
    }
  }

  /** A timer interrupt while the running thread is on the sleep list until tick w: the assertion fails exactly if w
      has come, and otherwise a thread is on two lists exactly if the time slice ends. In all other cases it is the
      interrupt that would have come before the thread joined. */
  lemma TickInside(k: State, w: int)
    requires Inv(k) && AtRest(k) && k.running != IDLE
    ensures SleepersWakeable(k)
    ensures var r := TimerInterrupt(Joined(k, w));
      && (r.Panicked? <==> w <= k.ticks + 1)
      && (r.Tangled? <==> w > k.ticks + 1 && k.threadTicks + 1 >= TIME_SLICE)
      && (r.Ran? ==> r.k == Joined(Tick(k), w) && AtRest(Tick(k)) && Tick(k).running == k.running)
  {
    hide Inv, SleepersWakeable, WakeDue, InsertOrdered, WakeLoop, SomeOnTwoLists;
    WokenUp(k);
    assert Later(Joined(k, w)) == Joined(Later(k), w);
    if w <= k.ticks + 1 {
      LoopFails(Later(k), w);
    } else {
      LoopPassesBy(Later(k), w);
      var d := WakeDue(Later(k));
      TangledByPush(d, w);
    }
  }

  lemma TangledByPush(k: State, w: int)
    requires k.running != IDLE
    ensures var n := Joined(k, w); SomeOnTwoLists(Pushed(n.(threadTicks := n.threadTicks + 1)))
  {
    var e, n := Sleeper(k.running, w, k.arrivals), Joined(k, w);
    assert n.sleepers[Slot(WakesBefore, k.sleepers, e)] == e;
    assert SleepsIn(n.sleepers, k.running);
    hide SleepsIn;
    var p := Pushed(n.(threadTicks := n.threadTicks + 1));
    assert p.ready[|n.ready|] == k.running;
    assert OnTwoLists(p, k.running);
  }

  /** Otherwise the interrupt is the one of module Kernel: putting the running thread on the ready list puts nobody
      on two lists. */
  lemma TickOutside(k: State)
    requires Inv(k)
    ensures SleepersWakeable(k) && TimerInterrupt(k) == Ran(Tick(k))
  {
    hide Inv, SleepersWakeable, WakeDue, WakeLoop, SomeOnTwoLists;
    WokenUp(k);
    LoopWakesDue(Later(k));
    var w := WakeDue(Later(k));
    ClockKept(w, w.ticks, w.threadTicks + 1);
    PushedOnce(w.(threadTicks := w.threadTicks + 1));
  }

  lemma PushedOnce(k: State)
    requires Inv(k)
    ensures !SomeOnTwoLists(Pushed(k))
  {
    hide Inv, SleepsIn;
    forall t: nat ensures !OnTwoLists(Pushed(k), t) {
      OneList(k, t);
    }
  }

  // ----- the machine with two steps refines the machine with one -----

  lemma UpJoined(k: State, w: int, s: SemaId)
    requires s in k.semas && (k.semas[s].waiters != [] ==> Wakeable(k, k.semas[s].waiters[0]))
    ensures Up(Joined(k, w), s) == Joined(Up(k, s), w)
    ensures AtRest(k) ==> AtRest(Up(k, s)) && Up(k, s).running == k.running
  {
  }

  lemma TakeJoined(k: State, w: int, s: SemaId)
    requires s in k.semas && k.semas[s].value > 0 && k.running in k.pc
    ensures TakeValue(Joined(k, w), s, k.pc[k.running]) == Joined(TakeValue(k, s, k.pc[k.running]), w)
    ensures AtRest(k) ==> AtRest(TakeValue(k, s, k.pc[k.running])) && TakeValue(k, s, k.pc[k.running]).running == k.running
  {
  }

  /** The state that a move leads to, in the machine of module Kernel. */
  ghost function Moved(s: Split, k: State, move: Move): (n: State)
    requires forall a | a in Meaning(s, move) :: Enabled(k, a) && Unblockable(k)
  {
    match move
    case Join(_) => k
    case _ => if Meaning(s, move) == [] then k else Next(k, Meaning(s, move)[0])
  }

  /** Exactly when a move goes wrong, and what it means when it does not. */
  lemma MoveExactly(s: Split, k: State, move: Move)
    requires Stands(s, k) && Allowed(s, move)
    ensures Do(s, move).Panicked? <==> move == Other(TimerTick) && s.joined.Some? && s.joined.value <= k.ticks + 1
    ensures Do(s, move).Tangled? <==>
      move == Other(TimerTick) && s.joined.Some? && s.joined.value > k.ticks + 1 && k.threadTicks + 1 >= TIME_SLICE
    ensures Do(s, move).Ran? ==>
      && (forall a | a in Meaning(s, move) :: Enabled(k, a) && Unblockable(k))
      && Stands(After(s, move), Moved(s, k, move))
  {
    hide Inv, TimerInterrupt, Tick, SleepersWakeable, InsertOrdered, Up, TakeValue, Schedule;
    RunningFacts(k);
    match move {
      case Join(n) =>
      case Settle => SettleMoves(s, k);
      case Other(a) =>
        if s.joined.Some? {
          HandlerMoves(s, k, a);
        } else if a.TimerTick? {
          TickOutside(k);
          StepKeeps(k, a);
        } else {
          StepKeeps(k, a);
        }
    }
  }

  lemma SettleMoves(s: Split, k: State)
    requires Stands(s, k) && s.joined.Some?
    ensures var a := SleepFor(s.joined.value - k.ticks);
      Enabled(k, a) && Unblockable(k) && Block(s.k, Sleeping) == Next(k, a) && Inv(Next(k, a)) && s.k.ticks == k.ticks
  {
    hide Inv, Schedule;
    RunningFacts(k);
    StepKeeps(k, SleepFor(s.joined.value - k.ticks));
  }

  lemma HandlerMoves(s: Split, k: State, a: Step)
    requires Stands(s, k) && s.joined.Some? && Allowed(s, Other(a))
    ensures Enabled(k, a) && Unblockable(k)
    ensures Do(s, Other(a)).Panicked? <==> a.TimerTick? && s.joined.value <= k.ticks + 1
    ensures Do(s, Other(a)).Tangled? <==> a.TimerTick? && s.joined.value > k.ticks + 1 && k.threadTicks + 1 >= TIME_SLICE
    ensures Do(s, Other(a)).Ran? ==> Stands(After(s, Other(a)), Next(k, a))
  {
    hide Inv, TimerInterrupt, Tick, SleepersWakeable, InsertOrdered, Up, TakeValue;
    RunningFacts(k);
    StepKeeps(k, a);
    var w := s.joined.value;
    assert s.k == Joined(k, w);
    if a.TimerTick? {
      TickInside(k, w);
    } else if a.SemaUp? {
      UpJoined(k, w, Plain(a.n));
    } else if k.semas[Plain(a.n)].value > 0 {
      TakeJoined(k, w, Plain(a.n));
    }
  }

  // ----- runs -----

  /** The moves can be made one after the other and nothing goes wrong. */
  ghost predicate Intact(s: Split, moves: seq<Move>)
    decreases |moves|
  {
    moves == [] ||
    (Allowed(s, moves[0]) && Do(s, moves[0]).Ran? && Intact(After(s, moves[0]), moves[1..]))
  }

  ghost function Last(s: Split, moves: seq<Move>): (n: Split)
    requires Intact(s, moves)
    decreases |moves|
  {
    if moves == [] then s else Last(After(s, moves[0]), moves[1..])
  }

  /** What the moves mean to the machine of module Kernel. */
  ghost function Steps(s: Split, moves: seq<Move>): (steps: seq<Step>)
    requires Intact(s, moves)
    decreases |moves|
  {
    if moves == [] then [] else Meaning(s, moves[0]) + Steps(After(s, moves[0]), moves[1..])
  }

  /** Every run in which nothing goes wrong is a run of the machine of module Kernel, in which a thread joins the
      sleep list and blocks at once; so everything proved of all runs of that machine holds of it. */
  lemma {:induction false} Refines(s: Split, k: State, moves: seq<Move>)
    requires Stands(s, k) && Intact(s, moves)
    ensures Possible(k, Steps(s, moves)) && Stands(Last(s, moves), Final(k, Steps(s, moves)))
    decreases |moves|
  {
    hide Stands, Allowed, Do, After, Enabled, Unblockable, Next;
    if moves != [] {
      MoveExactly(s, k, moves[0]);
      var n := After(s, moves[0]);
      var m := Moved(s, k, moves[0]);
      Refines(n, m, moves[1..]);
      var all, rest := Steps(s, moves), Steps(n, moves[1..]);
      if Meaning(s, moves[0]) == [] {
        assert all == rest;
      } else {
        assert all[0] == Meaning(s, moves[0])[0] && all[1..] == rest;
      }
    }
  }

  /** From boot on, in every run: a move goes wrong exactly if it is a timer interrupt that finds the running thread on
      the sleep list and due by now, or at the end of its time slice. */
  lemma GoesWrongExactly(k: State, moves: seq<Move>, move: Move)
    requires Booted(k) && Intact(Split(k, None), moves) && Allowed(Last(Split(k, None), moves), move)
    ensures var s := Last(Split(k, None), moves); var inside := move == Other(TimerTick) && s.joined.Some?;
      && (Do(s, move).Panicked? <==> inside && s.joined.value <= s.k.ticks + 1)
      && (Do(s, move).Tangled? <==> inside && s.joined.value > s.k.ticks + 1 && s.k.threadTicks + 1 >= TIME_SLICE)
  {
    hide Booted, Intact, Last, Allowed, Do, Inv;
    BootedInv(k);
    Refines(Split(k, None), k, moves);
    MoveExactly(Last(Split(k, None), moves), Final(k, Steps(Split(k, None), moves)), move);
  }

  /** In every run in which nothing goes wrong no thread is on two lists, and the running thread is on none but, between
      joining and blocking, the sleep list. */
  lemma NeverOnTwoLists(k: State, moves: seq<Move>, t: nat)
    requires Booted(k) && Intact(Split(k, None), moves)
    ensures var s := Last(Split(k, None), moves);
      && !OnTwoLists(s.k, t) && s.k.running !in s.k.ready
      && (forall r | r in s.k.semas :: s.k.running !in s.k.semas[r].waiters)
      && (SleepsIn(s.k.sleepers, s.k.running) <==> s.joined.Some?)
  {
    hide Booted, Intact, Last, Inv, Steps, Final, Possible;
    BootedInv(k);
    Refines(Split(k, None), k, moves);
    ListsOf(Last(Split(k, None), moves), Final(k, Steps(Split(k, None), moves)), t);
  }

  lemma ListsOf(s: Split, k: State, t: nat)
    requires Stands(s, k)
    ensures !OnTwoLists(s.k, t) && s.k.running !in s.k.ready
    ensures forall r | r in s.k.semas :: s.k.running !in s.k.semas[r].waiters
    ensures SleepsIn(s.k.sleepers, s.k.running) <==> s.joined.Some?
  {
    hide Inv;
    OneList(k, t);
    OneList(k, k.running);
    if s.joined.Some? {
      SleepersJoined(k, s.joined.value, t);
      SleepersJoined(k, s.joined.value, k.running);
    }
    hide SleepsIn, InsertOrdered;
  }

  /** Joining adds the running thread to the sleep list and nobody else. */
  lemma SleepersJoined(k: State, w: int, t: nat)
    ensures SleepsIn(Joined(k, w).sleepers, t) <==> SleepsIn(k.sleepers, t) || t == k.running
  {
    var l, e := k.sleepers, Sleeper(k.running, w, k.arrivals);
    var i, r := Slot(WakesBefore, l, e), InsertOrdered(WakesBefore, l, e);
    hide Slot;
    assert r[i] == e;
    if SleepsIn(l, t) {
      var j :| 0 <= j < |l| && l[j].tid == t;
      assert r[if j < i then j else j + 1].tid == t;
    }
    if SleepsIn(r, t) {
      var j :| 0 <= j < |r| && r[j].tid == t;
      assert j != i ==> l[if j < i then j else j - 1].tid == t;
    }
  }

  // ----- one window -----

  /** All the moves are made by interrupt handlers on semaphores that exist. */
  ghost predicate Handlers(k: State, moves: seq<Move>)
  {
    forall i | 0 <= i < |moves| ::
      moves[i].Other? && FromHandler(moves[i].a) && (moves[i].a.SemaUp? || moves[i].a.TryDown? ==> Plain(moves[i].a.n) in k.semas)
  }

  function Ticks(moves: seq<Move>): (m: nat)
  {
    if moves == [] then 0 else (if moves[0] == Other(TimerTick) then 1 else 0) + Ticks(moves[1..])
  }

  /** A window: whatever handlers run between joining the sleep list for n ticks and blocking, nothing goes wrong
      exactly if there is no timer interrupt among them, or fewer than n and none that ends the time slice. */
  lemma WindowExactly(k: State, n: int, moves: seq<Move>)
    requires Inv(k) && AtRest(k) && k.running != IDLE && Handlers(k, moves)
    ensures var m := Ticks(moves);
      Intact(Split(Bedded(k, n), Some(k.ticks + n)), moves) <==> m == 0 || (m < n && k.threadTicks + m < TIME_SLICE)
  {
    hide Inv, Bedded, Handlers, Intact;
    Window(Split(Bedded(k, n), Some(k.ticks + n)), k, moves);
  }

  lemma {:induction false} Window(s: Split, k: State, moves: seq<Move>)
    requires Stands(s, k) && s.joined.Some? && Handlers(k, moves)
    ensures var m := Ticks(moves);
      Intact(s, moves) <==> m == 0 || (k.ticks + m < s.joined.value && k.threadTicks + m < TIME_SLICE)
    decreases |moves|
  {
    hide Inv, Do, Tick, SleepersWakeable, Bedded, Up;
    if moves != [] {
      var a := moves[0].a;
      HandlersAllowed(s, k, a);
      HandlerMoves(s, k, a);
      if Do(s, moves[0]).Ran? {
        HandlerCounts(k, a);
        Window(After(s, moves[0]), Next(k, a), moves[1..]);
      }
    }
  }

  lemma HandlersAllowed(s: Split, k: State, a: Step)
    requires Stands(s, k) && s.joined.Some? && FromHandler(a) && (a.SemaUp? || a.TryDown? ==> Plain(a.n) in k.semas)
    ensures Allowed(s, Other(a))
  {
    hide Inv;
    RunningFacts(k);
  }

  /** What a handler does to the clocks and to the set of semaphores. */
  lemma HandlerCounts(k: State, a: Step)
    requires Inv(k) && Enabled(k, a) && Unblockable(k) && FromHandler(a) && (a.TimerTick? ==> k.threadTicks + 1 < TIME_SLICE)
    ensures var n, t := Next(k, a), if a.TimerTick? then 1 else 0;
      n.ticks == k.ticks + t && n.threadTicks == k.threadTicks + t && n.semas.Keys == k.semas.Keys
  {
    hide Inv, WakeDue, SleepersWakeable;
    if a.TimerTick? {
      WokenUp(k);
      TickSemas(k);
    }
  }

  /** The state that a window leads to. */
  lemma {:induction false} WindowEnds(s: Split, k: State, moves: seq<Move>) returns (n: State)
    requires Stands(s, k) && s.joined.Some? && Handlers(k, moves) && Intact(s, moves)
    ensures Last(s, moves).joined == s.joined && Stands(Last(s, moves), n)
    ensures n.running == k.running && n.ticks == k.ticks + Ticks(moves) && n.threadTicks == k.threadTicks + Ticks(moves)
    decreases |moves|
  {
    hide Inv, Do, Tick, SleepersWakeable, Bedded, Up;
    n := k;
    if moves != [] {
      var a := moves[0].a;
      HandlersAllowed(s, k, a);
      HandlerMoves(s, k, a);
      HandlerCounts(k, a);
      SameRunning(s, k, a);
      n := WindowEnds(After(s, moves[0]), Next(k, a), moves[1..]);
    }
  }

  lemma SameRunning(s: Split, k: State, a: Step)
    requires Stands(s, k) && s.joined.Some? && Allowed(s, Other(a)) && Do(s, Other(a)).Ran? && Enabled(k, a) && Unblockable(k)
    ensures Next(k, a).running == k.running
  {
    hide Inv, TimerInterrupt, Tick, SleepersWakeable, InsertOrdered;
    if a.TimerTick? {
      TickInside(k, s.joined.value);
    }
  }

  /** The m-th timer interrupt of a window, if those before it went well: the assertion of thread_unblock holds exactly
      if the sleep is for more than m ticks, and then no thread is on two lists exactly if the time slice goes on. */
  lemma MthTick(k: State, n: int, moves: seq<Move>)
    requires Inv(k) && AtRest(k) && k.running != IDLE && Handlers(k, moves)
    requires Intact(Split(Bedded(k, n), Some(k.ticks + n)), moves)
    ensures var s := Last(Split(Bedded(k, n), Some(k.ticks + n)), moves); var m := Ticks(moves) + 1;
      && Allowed(s, Other(TimerTick))
      && (Do(s, Other(TimerTick)).Panicked? <==> n <= m)
      && (Do(s, Other(TimerTick)).Tangled? <==> n > m && k.threadTicks + m >= TIME_SLICE)
  {
    hide Inv, Handlers, Intact, Last, Do, Bedded, Allowed;
    var s := Split(Bedded(k, n), Some(k.ticks + n));
    var e := WindowEnds(s, k, moves);
    HandlersAllowed(Last(s, moves), e, TimerTick);
    HandlerMoves(Last(s, moves), e, TimerTick);
  }

  // ----- failing runs -----

  lemma {:induction false} Appended(s: Split, first: seq<Move>, second: seq<Move>)
    requires Intact(s, first) && Intact(Last(s, first), second)
    ensures Intact(s, first + second) && Last(s, first + second) == Last(Last(s, first), second)
    decreases |first|
  {
    hide Allowed, Do, After;
    var all := first + second;
    if first == [] {
      assert all == second;
    } else {
      assert all[0] == first[0] && all[1..] == first[1..] + second;
      Appended(After(s, first[0]), first[1..], second);
    }
  }

  function Waiting(j: nat): (moves: seq<Move>)
  {
    seq(j, _ => Other(TimerTick))
  }

  /** After boot, timer interrupts within the first time slice only count. */
  lemma {:induction false} BootTicks(k: State, j: nat)
    requires Booted(k) && k.threadTicks + j < TIME_SLICE
    ensures Intact(Split(k, None), Waiting(j))
    ensures Last(Split(k, None), Waiting(j)) == Split(k.(ticks := k.ticks + j, threadTicks := k.threadTicks + j), None)
    ensures Booted(k.(ticks := k.ticks + j, threadTicks := k.threadTicks + j))
    decreases j
  {
    var moves := Waiting(j);
    if j > 0 {
      BootTick(k);
      var n := k.(ticks := k.ticks + 1, threadTicks := k.threadTicks + 1);
      hide Booted, Do, Allowed;
      BootTicks(n, j - 1);
      assert moves[0] == Other(TimerTick) && moves[1..] == Waiting(j - 1);
    }
  }

  lemma BootTick(k: State)
    requires Booted(k) && k.threadTicks + 1 < TIME_SLICE
    ensures var n := k.(ticks := k.ticks + 1, threadTicks := k.threadTicks + 1);
      && Booted(n) && Allowed(Split(k, None), Other(TimerTick)) && Do(Split(k, None), Other(TimerTick)) == Ran(n)
  {
    assert WakeLoop(Later(k)) == Ran(Later(k));
    BootAllowed(k);
  }

  lemma BootAllowed(k: State)
    requires Booted(k)
    ensures Inv(k) && AtRest(k) && k.running != IDLE && Allowed(Split(k, None), Other(TimerTick))
    ensures forall n :: Allowed(Split(k, None), Join(n))
  {
    BootedInv(k);
    hide Inv;
    RunningFacts(k);
  }

  lemma Joins(k: State, n: int)
    requires Booted(k)
    ensures Intact(Split(k, None), [Join(n)])
    ensures Last(Split(k, None), [Join(n)]) == Split(Bedded(k, n), Some(k.ticks + n))
  {
    hide Booted, Bedded;
    BootAllowed(k);
    assert [Join(n)][1..] == [];
  }

  /** A sleep for two ticks and two timer interrupts before the thread blocks, at the start of a time slice: the first
      goes well and the second fails the assertion. */
  lemma SecondTickPanics(k: State)
    requires Booted(k) && k.threadTicks + 1 < TIME_SLICE
    ensures Intact(Split(k, None), [Join(2), Other(TimerTick)])
    ensures var run := [Join(2), Other(TimerTick)];
      Allowed(Last(Split(k, None), run), Other(TimerTick)) && Do(Last(Split(k, None), run), Other(TimerTick)).Panicked?
  {
    BootAllowed(k);
    Joins(k, 2);
    hide Booted, Inv, Bedded, Do, Allowed, Intact, Last;
    var s := Split(Bedded(k, 2), Some(k.ticks + 2));
    var one := [Other(TimerTick)];
    OneTick();
    WindowExactly(k, 2, one);
    MthTick(k, 2, one);
    Appended(Split(k, None), [Join(2)], one);
    assert [Join(2)] + one == [Join(2), Other(TimerTick)];
  }

  lemma OneTick()
    ensures Ticks([Other(TimerTick)]) == 1 && Ticks([]) == 0
    ensures forall k :: Handlers(k, [Other(TimerTick)]) && Handlers(k, [])
  {
    assert [Other(TimerTick)][1..] == [];
  }

  /** From every boot state: a sleep of any length above one tick that starts with the last tick of a time slice, and
      that tick coming before the thread blocks, put the thread on two lists. */
  lemma PreemptionTangles(k: State, n: int)
    requires Booted(k) && n > 1
    ensures Intact(Split(k, None), Waiting(TIME_SLICE - 1 - k.threadTicks) + [Join(n)])
    ensures var run := Waiting(TIME_SLICE - 1 - k.threadTicks) + [Join(n)];
      Allowed(Last(Split(k, None), run), Other(TimerTick)) && Do(Last(Split(k, None), run), Other(TimerTick)).Tangled?
  {
    var j := TIME_SLICE - 1 - k.threadTicks;
    var b := k.(ticks := k.ticks + j, threadTicks := k.threadTicks + j);
    BootTicks(k, j);
    BootAllowed(b);
    Joins(b, n);
    hide Booted, Inv, Bedded, Do, Allowed, Intact, Last;
    Appended(Split(k, None), Waiting(j), [Join(n)]);
    OneTick();
    WindowExactly(b, n, []);
    NoMoves(Split(Bedded(b, n), Some(b.ticks + n)));
    MthTick(b, n, []);
  }

  lemma NoMoves(s: Split)
    ensures Intact(s, []) && Last(s, []) == s
  {
  }

  /** What preemption leaves behind: the thread on the sleep list, and ready or dispatched again as well. */
  lemma YieldedWhileJoined(k: State, n: int)
    requires k.running != IDLE
    ensures var y := Yield(Bedded(k, n)); SleepsIn(y.sleepers, k.running) && (k.running in y.ready || y.running == k.running)
  {
    SleepersJoined(k, k.ticks + n, k.running);
    var y := Yield(Bedded(k, n));
    if k.ready != [] {
      assert y.ready[|k.ready| - 1] == k.running;
    }
  }

  // ----- sleeping, over runs of this machine -----

  ghost predicate AsleepUntil(k: State, t: nat, w: int)
  {
    exists x :: x in k.sleepers && x.tid == t && x.wake == w
  }

  /** A thread that joins the sleep list for n ticks at tick T and blocks after a window in which nothing goes wrong is on
      the list, in every further run in which nothing goes wrong, until tick T + n (or T + 1, if n is not positive), and
      that tick makes it ready: as if it had joined and blocked at once. */
  lemma SleepsAsIfAtOnce(k: State, n: int, window: seq<Move>, moves: seq<Move>)
    requires Inv(k) && AtRest(k) && k.running != IDLE && Handlers(k, window)
    requires Intact(Split(Bedded(k, n), Some(k.ticks + n)), window)
    requires var s := Last(Split(Bedded(k, n), Some(k.ticks + n)), window); Allowed(s, Settle) && Intact(After(s, Settle), moves)
    ensures var s := Last(Split(Bedded(k, n), Some(k.ticks + n)), window);
      var f := Last(After(s, Settle), moves); var w := WakeTick(k.ticks, n);
      && (f.k.ticks < w ==> AsleepUntil(f.k, k.running, k.ticks + n))
      && (f.k.ticks == w - 1 && Allowed(f, Other(TimerTick)) && Do(f, Other(TimerTick)).Ran? ==>
            Awake(Do(f, Other(TimerTick)).k, k.running))
  {
    hide Inv, Handlers, Intact, Last, Bedded, Allowed, AsleepUntil, Awake, TimerInterrupt, SleepersWakeable, Tick;
    var start := Split(Bedded(k, n), Some(k.ticks + n));
    WindowExactly(k, n, window);
    var e := WindowEnds(start, k, window);
    var s := Last(start, window);
    SettleMoves(s, e);
    BlockedRun(s, e, moves);
  }

  lemma BlockedRun(s: Split, k: State, moves: seq<Move>)
    requires Stands(s, k) && s.joined.Some? && Allowed(s, Settle) && Intact(After(s, Settle), moves)
    ensures var f := Last(After(s, Settle), moves); var w := WakeTick(k.ticks, s.joined.value - k.ticks);
      && (f.k.ticks < w ==> AsleepUntil(f.k, k.running, s.joined.value))
      && (f.k.ticks == w - 1 && Allowed(f, Other(TimerTick)) && Do(f, Other(TimerTick)).Ran? ==>
            Awake(Do(f, Other(TimerTick)).k, k.running))
  {
    hide Inv, Intact, Last, Bedded, AsleepUntil, Awake, TimerInterrupt, SleepersWakeable, Tick, Asleep, Possible, Final, Block, Steps;
    var n := s.joined.value - k.ticks;
    SettleMoves(s, k);
    var b := After(s, Settle);
    Refines(b, Next(k, SleepFor(n)), moves);
    var steps := Steps(b, moves);
    var c, f := Final(Next(k, SleepFor(n)), steps), Last(b, moves);
    SleepsExactly(k, n, steps);
    StandsTicks(f, c);
    if f.k.ticks < WakeTick(k.ticks, n) {
      var x := Sleeper(k.running, s.joined.value, k.arrivals);
      StillListed(f, c, x);
      if f.k.ticks == WakeTick(k.ticks, n) - 1 && Allowed(f, Other(TimerTick)) && Do(f, Other(TimerTick)).Ran? {
        MoveExactly(f, c, Other(TimerTick));
        NotRunning(c, x);
        AwakeInside(f, c, k.running);
      }
    }
  }

  lemma StandsTicks(s: Split, k: State)
    requires Stands(s, k)
    ensures s.k.ticks == k.ticks && s.k.running == k.running
  {
  }

  lemma StillListed(s: Split, k: State, x: Sleeper)
    requires Stands(s, k) && Asleep(k, x)
    ensures AsleepUntil(s.k, x.tid, x.wake)
  {
    hide InsertOrdered, Inv;
    if s.joined.Some? {
      InsertKeeps(k.sleepers, Sleeper(k.running, s.joined.value, k.arrivals), x);
    }
    assert x in s.k.sleepers;
  }

  lemma NotRunning(k: State, x: Sleeper)
    requires Inv(k) && Asleep(k, x)
    ensures k.running != x.tid
  {
    hide Inv;
    OneList(k, x.tid);
    var i :| 0 <= i < |k.sleepers| && k.sleepers[i] == x;
    assert SleepsIn(k.sleepers, x.tid);
  }

  lemma AwakeInside(f: Split, k: State, t: nat)
    requires Stands(f, k) && Allowed(f, Other(TimerTick)) && Do(f, Other(TimerTick)).Ran? && k.running != t
    requires Enabled(k, TimerTick) && Unblockable(k) && Awake(Next(k, TimerTick), t)
    requires Stands(After(f, Other(TimerTick)), Next(k, TimerTick))
    ensures Awake(Do(f, Other(TimerTick)).k, t)
  {
    hide Inv, TimerInterrupt, SleepersWakeable, Tick, InsertOrdered, SleepsIn;
    if f.joined.Some? {
      SameRunning(f, k, TimerTick);
      SleepersJoined(Tick(k), f.joined.value, t);
    }
  }
}
