/** The interrupt queue as a step machine (src/devices/intq.c): any number of threads that put and get and wait
    their turn for the queue's lock, and interrupt handlers between them. Interrupts are off from a call to the
    point where the thread blocks or returns, so that stretch is one step. */
module QueueMachine {
  import opened Options
  import opened Bytes
  import opened Sequences

  /** A queue holds one byte less than its buffer. */
  const CAPACITY: nat := 63

  /** What a thread inside the queue came for: intq_putc of a byte, or intq_getc. */
  datatype Want = Put(byte: Byte) | Get

  /** Where a thread inside the queue is: on the list of the lock's semaphore, taken off it but not yet run,
      recorded in not_full or not_empty and blocked with the lock held, or taken from there but not yet run. */
  datatype Place = Locking(want: Want) | LockReady(want: Want) | Waiting(want: Want) | Woken(want: Want)

  datatype Queue = Queue(
    contents: seq<Byte>,
    holder: Option<nat>,
    lockers: seq<nat>,
    notFull: Option<nat>,
    notEmpty: Option<nat>,
    inside: map<nat, Place>,
    panicked: bool,
    put: seq<Byte>,
    got: seq<Byte>,
    queued: seq<nat>,
    served: seq<nat>)

  function Fresh(): (q: Queue)
  {
    Queue([], None, [], None, None, map[], false, [], [], [], [])
  }

  /** The condition of the two waiting loops. */
  predicate Blocked(q: Queue, w: Want)
  {
    if w.Put? then |q.contents| == CAPACITY else q.contents == []
  }

  /** signal: whoever is recorded becomes ready. */
  function Signalled(inside: map<nat, Place>, waiter: Option<nat>): (m: map<nat, Place>)
  {
    if waiter.Some? && waiter.value in inside then inside[waiter.value := Woken(inside[waiter.value].want)] else inside
  }

  /** The end of intq_putc. */
  function Added(q: Queue, byte: Byte): (r: Queue)
  {
    q.(contents := q.contents + [byte], put := q.put + [byte], inside := Signalled(q.inside, q.notEmpty), notEmpty := None)
  }

  /** The end of intq_getc. */
  function Removed(q: Queue): (r: Queue)
    requires q.contents != []
  {
    q.(contents := q.contents[1..], got := q.got + [q.contents[0]], inside := Signalled(q.inside, q.notFull), notFull := None)
  }

  function Performed(q: Queue, w: Want): (r: Queue)
    requires !Blocked(q, w)
  {
    match w
    case Put(byte) => Added(q, byte)
    case Get => Removed(q)
  }

  /** wait, with the lock held. It asserts that the condition which sent the thread here still holds. */
  function Wait(q: Queue, t: nat, w: Want): (r: Queue)
  {
    if !Blocked(q, w) then q.(panicked := true)
    else if w.Put? then q.(notFull := Some(t), inside := q.inside[t := Waiting(w)])
    else q.(notEmpty := Some(t), inside := q.inside[t := Waiting(w)])
  }

  /** lock_acquire and what follows it. */
  function Lock(q: Queue, t: nat, w: Want): (r: Queue)
  {
    if q.holder.None? then Wait(q.(holder := Some(t)), t, w)
    else q.(lockers := q.lockers + [t], inside := q.inside[t := Locking(w)], queued := q.queued + [t])
  }

  /** lock_release: the first thread on the list is made ready, but the lock is free for anybody. */
  function Unlock(q: Queue): (r: Queue)
  {
    if q.lockers == [] then q.(holder := None)
    else if q.lockers[0] !in q.inside then q.(holder := None, lockers := q.lockers[1..], served := q.served + [q.lockers[0]])
    else
      var u := q.lockers[0];
      q.(holder := None, lockers := q.lockers[1..], inside := q.inside[u := LockReady(q.inside[u].want)], served := q.served + [u])
  }

  /** The loop of intq_putc or intq_getc from its test on. */
  function Attempt(q: Queue, t: nat, w: Want): (r: Queue)
  {
    if Blocked(q, w) then Lock(q, t, w) else Performed(q, w)
  }

  function Left(q: Queue, t: nat): (r: Queue)
  {
    q.(inside := q.inside - {t})
  }

  // ----- steps -----

  datatype Step =
    | Enter(t: nat, want: Want)  // a thread calls intq_putc or intq_getc
    | Resume(t: nat)             // a thread inside that has been woken runs
    | TakeByte                   // an interrupt handler, or polling, gets a byte
    | GiveByte(byte: Byte)       // an interrupt handler puts a byte

  predicate Runnable(p: Place)
  {
    p.LockReady? || p.Woken?
  }

  /** An interrupt handler must not find the queue empty or full; a thread is in one place at a time. */
  predicate Enabled(q: Queue, a: Step)
  {
    !q.panicked &&
    match a
    case Enter(t, _) => t !in q.inside
    case Resume(t) => t in q.inside && Runnable(q.inside[t])
    case TakeByte => !Blocked(q, Get)
    case GiveByte(_) => |q.contents| < CAPACITY
  }

  function Next(q: Queue, a: Step): (r: Queue)
    requires Enabled(q, a)
  {
    match a
    case Enter(t, w) => Attempt(q, t, w)
    case Resume(t) =>
      var w := q.inside[t].want;
      if q.inside[t].LockReady? then Lock(Left(q, t), t, w) else Attempt(Unlock(Left(q, t)), t, w)
    case TakeByte => Removed(q)
    case GiveByte(byte) => Added(q, byte)
  }

  // ----- what every step keeps -----

  /** Bytes come out in the order in which they went in, and none is lost or made up. */
  ghost predicate Ordered(q: Queue)
  {
    q.put == q.got + q.contents && |q.contents| <= CAPACITY
  }

  predicate Holding(p: Place)
  {
    p.Waiting? || p.Woken?
  }

  /** The fields of the queue fit where its threads are. */
  ghost predicate PlacesOk(q: Queue)
  {
    && (q.holder.Some? ==> q.holder.value in q.inside)
    && (q.notFull.Some? ==> q.notFull.value in q.inside && q.inside[q.notFull.value].Waiting?)
    && (q.notEmpty.Some? ==> q.notEmpty.value in q.inside && q.inside[q.notEmpty.value].Waiting?)
    && forall t | t in q.inside :: PlaceOk(q, t)
  }

  ghost predicate PlaceOk(q: Queue, t: nat)
    requires t in q.inside
  {
    && (Holding(q.inside[t]) <==> q.holder == Some(t))
    && (q.inside[t].Waiting? && q.inside[t].want.Put? <==> q.notFull == Some(t))
    && (q.inside[t].Waiting? && q.inside[t].want.Get? <==> q.notEmpty == Some(t))
    && (q.inside[t].Locking? <==> t in q.lockers)
  }

  /** Threads on the lock's list, each once; and who was made ready for the lock, in order, and who is on the list are
      who was put on it. */
  ghost predicate LockersOk(q: Queue)
  {
    q.queued == q.served + q.lockers && Distinct(q.lockers) && forall i | 0 <= i < |q.lockers| :: q.lockers[i] in q.inside
  }

  /** A wait is for something that is not the case. */
  ghost predicate WaitsOk(q: Queue)
  {
    (q.notFull.Some? ==> |q.contents| == CAPACITY) && (q.notEmpty.Some? ==> q.contents == [])
  }

  /** No lost wake-up: while threads wait for the lock, it is held or one of them has been woken for it. */
  ghost predicate LockLive(q: Queue)
  {
    q.lockers != [] && q.holder.None? ==> exists t :: t in q.inside && q.inside[t].LockReady?
  }

  ghost predicate Inv(q: Queue)
  {
    Ordered(q) && PlacesOk(q) && LockersOk(q) && WaitsOk(q) && LockLive(q)
  }

  // ----- the parts of a step -----

  lemma AddedKeeps(q: Queue, byte: Byte)
    requires Inv(q) && |q.contents| < CAPACITY
    ensures Inv(Added(q, byte))
  {
    var r := Added(q, byte);
    assert r.put == r.got + r.contents;
    assert q.notFull.None?;
    SignalKeeps(q, q.notEmpty, r);
  }

  lemma RemovedKeeps(q: Queue)
    requires Inv(q) && q.contents != []
    ensures Inv(Removed(q))
  {
    var r := Removed(q);
    assert r.put == r.got + r.contents;
    assert q.notEmpty.None?;
    SignalKeeps(q, q.notFull, r);
  }

  lemma SignalKeeps(q: Queue, waiter: Option<nat>, r: Queue)
    requires PlacesOk(q) && LockersOk(q) && LockLive(q) && r.inside == Signalled(q.inside, waiter)
    requires r.holder == q.holder && r.lockers == q.lockers && r.notFull == None && r.notEmpty == None
    requires r.queued == q.queued && r.served == q.served
    requires q.notFull.None? || q.notEmpty.None?
    requires waiter == if q.notFull.Some? then q.notFull else q.notEmpty
    ensures PlacesOk(r) && LockersOk(r) && LockLive(r)
  {
    forall t | t in r.inside ensures PlaceOk(r, t) {
      assert PlaceOk(q, t);
    }
    if r.lockers != [] && r.holder.None? {
      var t :| t in q.inside && q.inside[t].LockReady?;
      assert r.inside[t].LockReady?;
    }
  }

  /** Lock by a thread that is nowhere else. */
  lemma LockKeeps(q: Queue, t: nat, w: Want)
    requires Inv(q) && t !in q.inside
    ensures Ordered(Lock(q, t, w))
    ensures q.holder.None? && !Blocked(q, w) ==> Lock(q, t, w).panicked
    ensures q.holder.Some? || Blocked(q, w) ==> Lock(q, t, w).panicked == q.panicked && Inv(Lock(q, t, w))
  {
    var r := Lock(q, t, w);
    if q.holder.Some? {
      Appended(q, t);
      forall u | u in r.inside ensures PlaceOk(r, u) {
        assert u in q.inside ==> PlaceOk(q, u);
      }
    } else if Blocked(q, w) {
      NobodyWaits(q);
      forall u | u in r.inside ensures PlaceOk(r, u) {
        assert u in q.inside ==> PlaceOk(q, u);
      }
      assert t !in q.lockers;
    }
  }

  lemma Appended(q: Queue, t: nat)
    requires LockersOk(q) && t !in q.inside
    ensures Distinct(q.lockers + [t]) && t !in q.lockers && forall u: nat :: u in q.lockers + [t] <==> u in q.lockers || u == t
  {
  }

  lemma NobodyWaits(q: Queue)
    requires PlacesOk(q) && q.holder.None?
    ensures q.notFull.None? && q.notEmpty.None?
  {
    assert q.notFull.Some? ==> PlaceOk(q, q.notFull.value);
    assert q.notEmpty.Some? ==> PlaceOk(q, q.notEmpty.value);
  }

  /** The holder, just woken, releases the lock. */
  lemma UnlockKeeps(q: Queue, t: nat)
    requires Inv(q) && t in q.inside && q.inside[t].Woken?
    ensures var r := Unlock(Left(q, t));
      && Inv(r) && r.holder.None? && t !in r.inside && r.contents == q.contents && r.panicked == q.panicked
      && r.put == q.put && r.got == q.got && r.notFull.None? && r.notEmpty.None?
  {
    assert PlaceOk(q, t);
    var r := Unlock(Left(q, t));
    assert t !in q.lockers;
    forall i | 0 <= i < |q.lockers| ensures q.lockers[i] in Left(q, t).inside {
      assert q.lockers[i] in q.lockers;
    }
    OnlyHolderWaits(q, t);
    UnlockPlaces(q, t, r);
  }

  lemma OnlyHolderWaits(q: Queue, t: nat)
    requires PlacesOk(q) && t in q.inside && q.inside[t].Woken?
    ensures q.notFull.None? && q.notEmpty.None? && q.holder == Some(t)
  {
    assert PlaceOk(q, t);
    assert q.notFull.Some? ==> PlaceOk(q, q.notFull.value);
    assert q.notEmpty.Some? ==> PlaceOk(q, q.notEmpty.value);
  }

  lemma UnlockPlaces(q: Queue, t: nat, r: Queue)
    requires Inv(q) && t in q.inside && q.inside[t].Woken? && r == Unlock(Left(q, t))
    requires q.notFull.None? && q.notEmpty.None? && q.holder == Some(t)
    requires t !in q.lockers && forall i | 0 <= i < |q.lockers| :: q.lockers[i] in Left(q, t).inside
    ensures Inv(r) && r.holder.None? && t !in r.inside
  {
    forall u | u in r.inside ensures PlaceOk(r, u) {
      assert PlaceOk(q, u);
    }
    if q.lockers != [] {
      assert r.inside[q.lockers[0]].LockReady?;
    }
  }

  /** A thread woken for the lock leaves the place where it was ready. */
  lemma LeftKeeps(q: Queue, t: nat)
    requires Inv(q) && t in q.inside && q.inside[t].LockReady?
    ensures var r := Left(q, t); Ordered(r) && PlacesOk(r) && LockersOk(r) && WaitsOk(r)
  {
    var r := Left(q, t);
    assert PlaceOk(q, t);
    forall u | u in r.inside ensures PlaceOk(r, u) {
      assert PlaceOk(q, u);
    }
    assert q.notFull.Some? ==> PlaceOk(q, q.notFull.value);
    assert q.notEmpty.Some? ==> PlaceOk(q, q.notEmpty.value);
    forall i | 0 <= i < |q.lockers| ensures q.lockers[i] in r.inside {
      assert q.lockers[i] in q.lockers;
    }
  }

  lemma AttemptKeeps(q: Queue, t: nat, w: Want)
    requires Inv(q) && t !in q.inside
    ensures Inv(Attempt(q, t, w)) && Attempt(q, t, w).panicked == q.panicked
  {
    hide Inv, Added, Removed, Lock;
    InvFacts(q);
    if Blocked(q, w) {
      LockKeeps(q, t, w);
    } else if w.Put? {
      AddedKeeps(q, w.byte);
    } else {
      RemovedKeeps(q);
    }
    NoPanic(q);
  }

  lemma InvFacts(q: Queue)
    requires Inv(q)
    ensures |q.contents| <= CAPACITY
  {
  }

  lemma NoPanic(q: Queue)
    ensures forall byte :: Added(q, byte).panicked == q.panicked
    ensures q.contents != [] ==> Removed(q).panicked == q.panicked
  {
  }

  /** When a step fails the assertion of wait: a thread that was woken for the lock gets it when what it came
      to wait for is the case already. */
  predicate Fails(q: Queue, a: Step)
    requires Enabled(q, a)
  {
    a.Resume? && q.inside[a.t].LockReady? && q.holder.None? && !Blocked(q, q.inside[a.t].want)
  }

  /** Every step keeps the order of bytes; it keeps the whole invariant unless it fails, and it fails exactly
      when Fails says so. */
  lemma StepKeeps(q: Queue, a: Step)
    requires Inv(q) && Enabled(q, a)
    ensures var r := Next(q, a); Ordered(r) && (r.panicked <==> Fails(q, a)) && (!r.panicked ==> Inv(r))
  {
    hide Added, Removed, Lock, Attempt, Unlock, Left, PlacesOk, LockersOk, WaitsOk, LockLive, Ordered;
    match a {
      case Enter(t, w) => AttemptKeeps(q, t, w);
      case TakeByte =>
        RemovedKeeps(q);
        NoPanic(q);
      case GiveByte(byte) =>
        AddedKeeps(q, byte);
        NoPanic(q);
      case Resume(t) =>
        if q.inside[t].LockReady? {
          RetryKeeps(q, t);
        } else {
          UnlockKeeps(q, t);
          AttemptKeeps(Unlock(Left(q, t)), t, q.inside[t].want);
        }
    }
  }

  lemma RetryKeeps(q: Queue, t: nat)
    requires Inv(q) && !q.panicked && t in q.inside && q.inside[t].LockReady?
    ensures var w := q.inside[t].want; var r := Lock(Left(q, t), t, w);
      Ordered(r) && (r.panicked <==> q.holder.None? && !Blocked(q, w)) && (!r.panicked ==> Inv(r))
  {
    var p, w := Left(q, t), q.inside[t].want;
    LeftKeeps(q, t);
    var r := Lock(p, t, w);
    if q.holder.Some? {
      Appended(p, t);
      forall u | u in r.inside ensures PlaceOk(r, u) {
        assert u in p.inside ==> PlaceOk(p, u);
      }
    } else if Blocked(q, w) {
      NobodyWaits(p);
      forall u | u in r.inside ensures PlaceOk(r, u) {
        assert u in p.inside ==> PlaceOk(p, u);
      }
      assert t !in p.lockers;
    }
  }

  /** What a step completes: a call that returns, or the access of an interrupt handler. */
  function Completed(q: Queue, a: Step): (w: Option<Want>)
    requires Enabled(q, a)
  {
    match a
    case Enter(_, want) => if Blocked(q, want) then None else Some(want)
    case Resume(t) => if q.inside[t].Woken? && !Blocked(q, q.inside[t].want) then Some(q.inside[t].want) else None
    case TakeByte => Some(Get)
    case GiveByte(byte) => Some(Put(byte))
  }

  /** A call returns exactly when its byte has been put, once and at the end, or it has the oldest byte. */
  lemma StepEffect(q: Queue, a: Step)
    requires Inv(q) && Enabled(q, a)
    ensures var r := Next(q, a);
      match Completed(q, a)
      case None => r.contents == q.contents && r.put == q.put && r.got == q.got
      case Some(Put(byte)) => r.contents == q.contents + [byte] && r.put == q.put + [byte] && r.got == q.got
      case Some(Get) => q.contents != [] && r.contents == q.contents[1..] && r.put == q.put && r.got == q.got + [q.contents[0]]
    ensures a.Enter? || a.Resume? ==> (a.t in Next(q, a).inside <==> Completed(q, a).None? && !Next(q, a).panicked)
  {
    hide PlacesOk, WaitsOk, LockLive;
    if a.Resume? && q.inside[a.t].Woken? {
      UnlockKeeps(q, a.t);
    }
    if a.Enter? {
      NotRecorded(q, a.t);
    }
  }

  lemma NotRecorded(q: Queue, t: nat)
    requires Inv(q) && t !in q.inside
    ensures q.notFull != Some(t) && q.notEmpty != Some(t)
  {
  }

  /** Nobody inside changes what it came for. */
  lemma StepWants(q: Queue, a: Step, u: nat)
    requires Inv(q) && Enabled(q, a) && u in Next(q, a).inside
    ensures if a.Enter? && u == a.t then Next(q, a).inside[u].want == a.want
            else u in q.inside && Next(q, a).inside[u].want == q.inside[u].want
  {
    hide Attempt, Lock, Unlock;
    if a.Enter? {
      AttemptWants(q, a.t, a.want, u);
    } else if a.Resume? {
      var p := Left(q, a.t);
      UnlockWants(p, u);
      AttemptWants(Unlock(p), a.t, q.inside[a.t].want, u);
      LockWants(p, a.t, q.inside[a.t].want, u);
    }
  }

  lemma LockWants(q: Queue, t: nat, w: Want, u: nat)
    ensures u in Lock(q, t, w).inside && (u != t || t !in q.inside) ==>
      if u == t then Lock(q, t, w).inside[u].want == w else u in q.inside && Lock(q, t, w).inside[u].want == q.inside[u].want
  {
  }

  lemma AttemptWants(q: Queue, t: nat, w: Want, u: nat)
    requires t !in q.inside
    ensures u in Attempt(q, t, w).inside ==>
      if u == t then Attempt(q, t, w).inside[u].want == w else u in q.inside && Attempt(q, t, w).inside[u].want == q.inside[u].want
  {
    hide Lock;
    LockWants(q, t, w, u);
  }

  lemma UnlockWants(q: Queue, u: nat)
    ensures Unlock(q).inside.Keys == q.inside.Keys && (u in q.inside ==> Unlock(q).inside[u].want == q.inside[u].want)
  {
  }

  /** A thread that is ready stays ready until it runs, and one that is recorded is made ready by the byte that it
      waits for. */
  lemma StepReady(q: Queue, a: Step, u: nat)
    requires Inv(q) && Enabled(q, a)
    ensures var r := Next(q, a);
      && (u in q.inside && Runnable(q.inside[u]) && a != Resume(u) ==> u in r.inside && Runnable(r.inside[u]))
      && (a.TakeByte? && q.notFull == Some(u) ==> u in r.inside && Runnable(r.inside[u]))
      && (a.GiveByte? && q.notEmpty == Some(u) ==> u in r.inside && Runnable(r.inside[u]))
  {
    hide WaitsOk, LockLive, Ordered;
    if a.Resume? && q.inside[a.t].Woken? {
      ReleaseReady(q, a.t, u);
      hide Inv;
    }
  }

  lemma ReleaseReady(q: Queue, t: nat, u: nat)
    requires Inv(q) && t in q.inside && q.inside[t].Woken?
    ensures var r := Unlock(Left(q, t));
      && r.notFull.None? && r.notEmpty.None?
      && (u in q.inside && Runnable(q.inside[u]) && u != t ==> u in r.inside && Runnable(r.inside[u]))
  {
    assert PlaceOk(q, t);
    UnlockKeeps(q, t);
  }

  // ----- runs -----

  ghost predicate Possible(q: Queue, steps: seq<Step>)
    decreases |steps|
  {
    steps == [] || (Enabled(q, steps[0]) && Possible(Next(q, steps[0]), steps[1..]))
  }

  ghost function Final(q: Queue, steps: seq<Step>): (r: Queue)
    requires Possible(q, steps)
    decreases |steps|
  {
    if steps == [] then q else Final(Next(q, steps[0]), steps[1..])
  }

  /** In every run, with any number of threads on both sides: bytes come out in order. */
  lemma {:induction false} RunKeeps(q: Queue, steps: seq<Step>)
    requires Inv(q) && !q.panicked && Possible(q, steps)
    ensures Ordered(Final(q, steps)) && (!Final(q, steps).panicked ==> Inv(Final(q, steps)))
    decreases |steps|
  {
    hide Inv, Next, Enabled, Ordered;
    if steps == [] {
      InOrder(q);
    } else {
      StepKeeps(q, steps[0]);
      var r := Next(q, steps[0]);
      if r.panicked {
        Stopped(r, steps[1..]);
      } else {
        RunKeeps(r, steps[1..]);
      }
    }
  }

  /** In every run the i-th thread that is made ready for the lock is the i-th that was put on its list. */
  lemma LockInOrder(steps: seq<Step>, i: nat)
    requires Possible(Fresh(), steps) && !Final(Fresh(), steps).panicked && i < |Final(Fresh(), steps).served|
    ensures var q := Final(Fresh(), steps); i < |q.queued| && q.served[i] == q.queued[i]
  {
    hide Possible, Final, Ordered, PlacesOk, WaitsOk, LockLive;
    FreshInv();
    RunKeeps(Fresh(), steps);
    var q := Final(Fresh(), steps);
    assert q.queued[i] == (q.served + q.lockers)[i];
  }

  lemma InOrder(q: Queue)
    requires Inv(q)
    ensures Ordered(q)
  {
  }

  /** After a failed assertion nothing runs. */
  lemma Stopped(q: Queue, steps: seq<Step>)
    requires q.panicked && Possible(q, steps)
    ensures steps == [] && Final(q, steps) == q
  {
  }

  lemma FreshInv()
    ensures Inv(Fresh()) && Calm(Fresh())
  {
  }

  // ----- no stall -----

  /** Nobody inside is ready to run. */
  ghost predicate Idle(q: Queue)
  {
    forall t | t in q.inside :: !Runnable(q.inside[t])
  }

  /** No stall: if there are threads inside and none of them is ready, one waits, holding the lock, for room in a
      full queue or for a byte in an empty one, and the next byte taken or given makes it ready. */
  lemma NoStall(q: Queue)
    requires Inv(q) && !q.panicked && q.inside != map[] && Idle(q)
    ensures q.holder.Some? && q.holder.value in q.inside && q.inside[q.holder.value].Waiting?
    ensures if q.inside[q.holder.value].want.Put?
            then |q.contents| == CAPACITY && Runnable(Removed(q).inside[q.holder.value])
            else q.contents == [] && forall byte :: Runnable(Added(q, byte).inside[q.holder.value])
  {
    var t :| t in q.inside;
    assert PlaceOk(q, t);
    var h := q.holder.value;
    assert PlaceOk(q, h) && !Runnable(q.inside[h]);
  }

  // ----- when the assertion of wait can fail -----

  /** No thread is on its way through lock_acquire. */
  ghost predicate Calm(q: Queue)
  {
    forall t | t in q.inside :: !q.inside[t].Locking? && !q.inside[t].LockReady?
  }

  /** A call that goes through at once, or finds nobody inside holding the lock. */
  predicate Polite(q: Queue, a: Step)
  {
    a.Enter? && Blocked(q, a.want) ==> q.holder.None?
  }

  lemma CalmStep(q: Queue, a: Step)
    requires Inv(q) && Calm(q) && Enabled(q, a) && Polite(q, a)
    ensures !Next(q, a).panicked && Inv(Next(q, a)) && Calm(Next(q, a))
  {
    StepKeeps(q, a);
    hide PlacesOk, WaitsOk, LockLive, Ordered;
    assert q.lockers == [] by {
      NoLockers(q);
    }
  }

  lemma NoLockers(q: Queue)
    requires Inv(q) && Calm(q)
    ensures q.lockers == []
  {
    assert q.lockers != [] ==> PlaceOk(q, q.lockers[0]);
  }

  /** All calls of a run are polite. */
  ghost predicate PoliteRun(q: Queue, steps: seq<Step>)
    requires Possible(q, steps)
    decreases |steps|
  {
    steps == [] || (Polite(q, steps[0]) && PoliteRun(Next(q, steps[0]), steps[1..]))
  }

  /** Callers that make sure that no thread enters to wait while another is inside never fail the assertion. */
  lemma {:induction false} PoliteNeverFails(q: Queue, steps: seq<Step>)
    requires Inv(q) && Calm(q) && !q.panicked && Possible(q, steps) && PoliteRun(q, steps)
    ensures !Final(q, steps).panicked && Inv(Final(q, steps)) && Calm(Final(q, steps))
    decreases |steps|
  {
    hide Inv, Calm, Next, Enabled, Polite;
    if steps != [] {
      CalmStep(q, steps[0]);
      PoliteNeverFails(Next(q, steps[0]), steps[1..]);
    }
  }

  /** A run without further calls that ends in the failed assertion. */
  ghost predicate LeadsToFailure(q: Queue, steps: seq<Step>)
  {
    (forall i | 0 <= i < |steps| :: !steps[i].Enter?) && Possible(q, steps) && Final(q, steps).panicked
  }

  lemma Then(q: Queue, a: Step, rest: seq<Step>) returns (steps: seq<Step>)
    requires Enabled(q, a) && !a.Enter? && LeadsToFailure(Next(q, a), rest)
    ensures LeadsToFailure(q, steps)
  {
    hide Next, Enabled, Possible, Final;
    steps := Prepend(q, a, rest);
  }

  /** The byte that ends what w waits for. */
  function Unblocking(w: Want): (a: Step)
  {
    if w.Put? then TakeByte else GiveByte(0)
  }

  /** With nobody recorded as waiting, a byte taken or given leaves the threads where they are. */
  lemma Unblocks(q: Queue, w: Want)
    requires Inv(q) && !q.panicked && Blocked(q, w) && q.notFull.None? && q.notEmpty.None?
    ensures Enabled(q, Unblocking(w))
    ensures var r := Next(q, Unblocking(w));
      Inv(r) && !r.panicked && !Blocked(r, w) && r.inside == q.inside && r.holder == q.holder && r.lockers == q.lockers
  {
    hide PlacesOk, LockersOk, LockLive, Ordered;
    StepKeeps(q, Unblocking(w));
  }

  /** The lock is free and a thread has been woken for it. */
  lemma FailsNow(q: Queue, v: nat) returns (steps: seq<Step>)
    requires Inv(q) && !q.panicked && q.holder.None? && v in q.inside && q.inside[v].LockReady?
    ensures LeadsToFailure(q, steps)
  {
    hide Inv, LeadsToFailure;
    var w := q.inside[v].want;
    if Blocked(q, w) {
      Nobody(q);
      Unblocks(q, w);
      steps := FailsAtOnce(Next(q, Unblocking(w)), v);
      steps := Then(q, Unblocking(w), steps);
    } else {
      steps := FailsAtOnce(q, v);
    }
  }

  lemma Nobody(q: Queue)
    requires Inv(q) && q.holder.None?
    ensures q.notFull.None? && q.notEmpty.None?
  {
    NobodyWaits(q);
  }

  lemma FailsAtOnce(q: Queue, v: nat) returns (steps: seq<Step>)
    requires Inv(q) && !q.panicked && q.holder.None? && v in q.inside && q.inside[v].LockReady? && !Blocked(q, q.inside[v].want)
    ensures LeadsToFailure(q, steps)
  {
    hide Inv;
    StepKeeps(q, Resume(v));
    steps := [];
    assert LeadsToFailure(Next(q, Resume(v)), steps);
    steps := Then(q, Resume(v), steps);
  }

  /** The holder has been woken and somebody else is on the way through lock_acquire. */
  lemma FailsAfterRelease(q: Queue, h: nat, v: nat) returns (steps: seq<Step>)
    requires Inv(q) && !q.panicked && h in q.inside && q.inside[h].Woken?
    requires v in q.inside && (q.inside[v].Locking? || q.inside[v].LockReady?)
    ensures LeadsToFailure(q, steps)
  {
    hide Inv, LeadsToFailure, Next;
    var w := q.inside[h].want;
    Sole(q, h);
    if Blocked(q, w) {
      Unblocks(q, w);
      steps := FailsAfterPass(Next(q, Unblocking(w)), h, v);
      steps := Then(q, Unblocking(w), steps);
    } else {
      steps := FailsAfterPass(q, h, v);
    }
  }

  lemma Sole(q: Queue, h: nat)
    requires Inv(q) && h in q.inside && q.inside[h].Woken?
    ensures q.notFull.None? && q.notEmpty.None?
  {
    OnlyHolderWaits(q, h);
  }

  lemma FailsAfterPass(q: Queue, h: nat, v: nat) returns (steps: seq<Step>)
    requires Inv(q) && !q.panicked && h in q.inside && q.inside[h].Woken? && !Blocked(q, q.inside[h].want)
    requires v in q.inside && (q.inside[v].Locking? || q.inside[v].LockReady?)
    ensures LeadsToFailure(q, steps)
  {
    hide LeadsToFailure;
    StepKeeps(q, Resume(h));
    var u := PassesLock(q, h, v);
    hide Inv, Next;
    steps := FailsNow(Next(q, Resume(h)), u);
    steps := Then(q, Resume(h), steps);
  }

  /** A holder that can finish leaves the lock free and somebody woken for it. */
  lemma PassesLock(q: Queue, h: nat, v: nat) returns (u: nat)
    requires Inv(q) && !q.panicked && h in q.inside && q.inside[h].Woken? && !Blocked(q, q.inside[h].want)
    requires v in q.inside && (q.inside[v].Locking? || q.inside[v].LockReady?)
    ensures Enabled(q, Resume(h)) && var r := Next(q, Resume(h));
      r.holder.None? && u in r.inside && r.inside[u].LockReady?
  {
    UnlockKeeps(q, h);
    assert PlaceOk(q, v) && PlaceOk(q, h);
    u := if q.lockers != [] then q.lockers[0] else v;
    assert u in q.inside && u != h by {
      assert q.lockers != [] ==> q.lockers[0] in q.lockers;
    }
  }

  /** From every state in which some thread is on its way through lock_acquire, a run without further calls fails
      the assertion. */
  lemma UncalmFails(q: Queue, v: nat) returns (steps: seq<Step>)
    requires Inv(q) && !q.panicked && v in q.inside && (q.inside[v].Locking? || q.inside[v].LockReady?)
    ensures LeadsToFailure(q, steps)
  {
    hide LeadsToFailure, Next;
    assert PlaceOk(q, v);
    if q.holder.None? {
      var u := if q.inside[v].LockReady? then v else WokenForLock(q);
      steps := FailsNow(q, u);
    } else {
      var h := q.holder.value;
      assert PlaceOk(q, h);
      if q.inside[h].Woken? {
        steps := FailsAfterRelease(q, h, v);
      } else {
        var a := Unblocking(q.inside[h].want);
        StepKeeps(q, a);
        WakesHolder(q, h, v);
        steps := FailsAfterRelease(Next(q, a), h, v);
        steps := Then(q, a, steps);
      }
    }
  }

  ghost function WokenForLock(q: Queue): (u: nat)
    requires LockLive(q) && q.lockers != [] && q.holder.None?
    ensures u in q.inside && q.inside[u].LockReady?
  {
    var u :| u in q.inside && q.inside[u].LockReady?;
    u
  }

  lemma WakesHolder(q: Queue, h: nat, v: nat)
    requires Inv(q) && !q.panicked && h in q.inside && q.inside[h].Waiting? && v in q.inside && v != h
    ensures Enabled(q, Unblocking(q.inside[h].want))
    ensures var r := Next(q, Unblocking(q.inside[h].want));
      h in r.inside && r.inside[h].Woken? && v in r.inside && r.inside[v] == q.inside[v] && !r.panicked
  {
    assert PlaceOk(q, h);
  }

  /** Without further calls, the assertion of wait can fail exactly when some thread is on its way through
      lock_acquire. */
  lemma FailureExactly(q: Queue)
    requires Inv(q) && !q.panicked
    ensures (exists steps :: LeadsToFailure(q, steps)) <==> !Calm(q)
  {
    hide Inv;
    if !Calm(q) {
      var v :| v in q.inside && (q.inside[v].Locking? || q.inside[v].LockReady?);
      var steps := UncalmFails(q, v);
    }
    if steps :| LeadsToFailure(q, steps) {
      if Calm(q) {
        NoCallsPolite(q, steps);
        PoliteNeverFails(q, steps);
      }
    }
  }

  lemma {:induction false} NoCallsPolite(q: Queue, steps: seq<Step>)
    requires (forall i | 0 <= i < |steps| :: !steps[i].Enter?) && Possible(q, steps)
    ensures PoliteRun(q, steps)
    decreases |steps|
  {
    hide Next, Enabled;
    if steps != [] {
      NoCallsPolite(Next(q, steps[0]), steps[1..]);
    }
  }

  /** The call that makes failure possible: one that has to wait while another thread holds the queue's lock. A
      caller that keeps others out while it is inside never makes it. */
  lemma CallExactly(q: Queue, t: nat, w: Want)
    requires Inv(q) && Calm(q) && !q.panicked && t !in q.inside
    ensures Enabled(q, Enter(t, w)) && Inv(Next(q, Enter(t, w))) && !Next(q, Enter(t, w)).panicked
    ensures (exists steps :: LeadsToFailure(Next(q, Enter(t, w)), steps)) <==> Blocked(q, w) && q.holder.Some?
  {
    hide LeadsToFailure;
    StepKeeps(q, Enter(t, w));
    var r := Next(q, Enter(t, w));
    FailureExactly(r);
    if Polite(q, Enter(t, w)) {
      CalmStep(q, Enter(t, w));
    } else {
      assert r.inside[t].Locking?;
    }
  }

  // ----- the shortest failing runs -----

  /** Two writers at a full queue: both test and find it full, the second blocks on the lock, two bytes are sent, the
      first is done, and the second then waits for room that is there. */
  lemma TwoWritersFail(q: Queue, t: nat, u: nat, b: Byte, c: Byte)
    requires Inv(q) && !q.panicked && q.inside == map[] && |q.contents| == CAPACITY && t != u
    ensures var run := [Enter(t, Put(b)), Enter(u, Put(c)), TakeByte, TakeByte, Resume(t), Resume(u)];
      Possible(q, run) && Final(q, run).panicked
  {
    NothingInside(q);
    var q1 := Next(q, Enter(t, Put(b)));
    var q2 := Next(q1, Enter(u, Put(c)));
    assert q2.inside == map[t := Waiting(Put(b)), u := Locking(Put(c))] && q2.lockers == [u];
    var q3 := Next(q2, TakeByte);
    assert q3.inside == map[t := Woken(Put(b)), u := Locking(Put(c))];
    var q4 := Next(q3, TakeByte);
    assert Left(q4, t).inside == map[u := Locking(Put(c))];
    var q5 := Next(q4, Resume(t));
    assert q5.inside == map[u := LockReady(Put(c))];
    SixSteps(q, Enter(t, Put(b)), Enter(u, Put(c)), TakeByte, TakeByte, Resume(t), Resume(u));
  }

  /** Two readers at an empty queue. */
  lemma TwoReadersFail(q: Queue, t: nat, u: nat, b: Byte, c: Byte)
    requires Inv(q) && !q.panicked && q.inside == map[] && q.contents == [] && t != u
    ensures var run := [Enter(t, Get), Enter(u, Get), GiveByte(b), GiveByte(c), Resume(t), Resume(u)];
      Possible(q, run) && Final(q, run).panicked
  {
    NothingInside(q);
    var q1 := Next(q, Enter(t, Get));
    var q2 := Next(q1, Enter(u, Get));
    assert q2.inside == map[t := Waiting(Get), u := Locking(Get)] && q2.lockers == [u];
    var q3 := Next(q2, GiveByte(b));
    assert q3.inside == map[t := Woken(Get), u := Locking(Get)];
    var q4 := Next(q3, GiveByte(c));
    assert Left(q4, t).inside == map[u := Locking(Get)];
    var q5 := Next(q4, Resume(t));
    assert q5.inside == map[u := LockReady(Get)];
    SixSteps(q, Enter(t, Get), Enter(u, Get), GiveByte(b), GiveByte(c), Resume(t), Resume(u));
  }

  lemma NothingInside(q: Queue)
    requires Inv(q) && q.inside == map[]
    ensures q.holder == None && q.lockers == [] && q.notFull == None && q.notEmpty == None
  {
  }

  lemma SixSteps(q: Queue, a: Step, b: Step, c: Step, d: Step, e: Step, f: Step)
    requires Enabled(q, a)
    requires var q1 := Next(q, a); Enabled(q1, b) && var q2 := Next(q1, b); Enabled(q2, c) && var q3 := Next(q2, c);
      Enabled(q3, d) && var q4 := Next(q3, d); Enabled(q4, e) && Enabled(Next(q4, e), f)
    ensures Possible(q, [a, b, c, d, e, f])
    ensures Final(q, [a, b, c, d, e, f]) == Next(Next(Next(Next(Next(Next(q, a), b), c), d), e), f)
  {
    hide Next, Enabled, Possible, Final;
    var q1 := Next(q, a);
    var q2 := Next(q1, b);
    var q3 := Next(q2, c);
    var q4 := Next(q3, d);
    var q5 := Next(q4, e);
    NoSteps(Next(q5, f));
    var r6 := Prepend(q5, f, []);
    var r5 := Prepend(q4, e, r6);
    var r4 := Prepend(q3, d, r5);
    var r3 := Prepend(q2, c, r4);
    var r2 := Prepend(q1, b, r3);
    var r1 := Prepend(q, a, r2);
    assert r1 == [a, b, c, d, e, f];
  }

  lemma NoSteps(q: Queue)
    ensures Possible(q, []) && Final(q, []) == q
  {
  }

  lemma Prepend(q: Queue, a: Step, rest: seq<Step>) returns (steps: seq<Step>)
    requires Enabled(q, a) && Possible(Next(q, a), rest)
    ensures steps == [a] + rest && Possible(q, steps) && Final(q, steps) == Final(Next(q, a), rest)
  {
    hide Next, Enabled;
    steps := [a] + rest;
    assert steps[1..] == rest;
  }
}
