/** The circular queue shared by threads and interrupt handlers (src/devices/intq.c): a ring buffer that refines the
    machine of QueueMachine. A call that has to wait ends where the thread blocks and goes on when it is woken. */
module InterruptQueue {
  import opened Options
  import opened Bytes
  import opened QueueMachine

  const BUFSIZE: nat := 64

  /** The position after pos. */
  function NextPos(pos: nat): (p: nat)
    requires pos < BUFSIZE
    ensures p < BUFSIZE
  {
    (pos + 1) % BUFSIZE
  }

  function Distance(tail: nat, head: nat): (n: nat)
    requires tail < BUFSIZE && head < BUFSIZE
    ensures n < BUFSIZE && (n == 0 <==> head == tail) && (n == BUFSIZE - 1 <==> NextPos(head) == tail)
  {
    if head >= tail then head - tail else head + BUFSIZE - tail
  }

  /** The bytes from tail up to head, going round the end of the buffer. */
  function Ring(buf: seq<Byte>, tail: nat, head: nat): (s: seq<Byte>)
    requires |buf| == BUFSIZE && tail < BUFSIZE && head < BUFSIZE
    ensures |s| == Distance(tail, head)
  {
    seq(Distance(tail, head), i requires i >= 0 => buf[(tail + i) % BUFSIZE])
  }

  lemma RingPut(buf: seq<Byte>, tail: nat, head: nat, byte: Byte)
    requires |buf| == BUFSIZE && tail < BUFSIZE && head < BUFSIZE && NextPos(head) != tail
    ensures Ring(buf[head := byte], tail, NextPos(head)) == Ring(buf, tail, head) + [byte]
  {
    var n := Distance(tail, head);
    var s, r := Ring(buf[head := byte], tail, NextPos(head)), Ring(buf, tail, head) + [byte];
    assert Distance(tail, NextPos(head)) == n + 1;
    assert (tail + n) % BUFSIZE == head;
    forall i | 0 <= i <= n ensures s[i] == r[i] {
      assert i < n ==> (tail + i) % BUFSIZE != head;
    }
  }

  lemma RingGet(buf: seq<Byte>, tail: nat, head: nat)
    requires |buf| == BUFSIZE && tail < BUFSIZE && head < BUFSIZE && head != tail
    ensures Ring(buf, tail, head) == [buf[tail]] + Ring(buf, NextPos(tail), head)
  {
    var n := Distance(tail, head);
    var s, r := Ring(buf, tail, head), [buf[tail]] + Ring(buf, NextPos(tail), head);
    assert Distance(NextPos(tail), head) == n - 1;
    forall i | 0 <= i < n ensures s[i] == r[i] {
      assert i > 0 ==> (NextPos(tail) + (i - 1)) % BUFSIZE == (tail + i) % BUFSIZE;
    }
  }

  class IntQ {
    const buf: array<Byte>
    var head: nat
    var tail: nat
    var holder: Option<nat>
    var lockers: seq<nat>
    var notFull: Option<nat>
    var notEmpty: Option<nat>
    var inside: map<nat, Place>
    var panicked: bool
    ghost var put: seq<Byte>
    ghost var got: seq<Byte>
    ghost var queued: seq<nat>
    ghost var served: seq<nat>

    ghost predicate Shaped()
      reads this, buf
    {
      buf.Length == BUFSIZE && head < BUFSIZE && tail < BUFSIZE
    }

    ghost function Contents(): (s: seq<Byte>)
      reads this, buf
      requires Shaped()
      ensures |s| < BUFSIZE
    {
      Ring(buf[..], tail, head)
    }

    /** The state of the machine that the fields stand for. */
    ghost function View(): (q: Queue)
      reads this, buf
      requires Shaped()
      ensures q.contents == Contents()
    {
      Queue(Contents(), holder, lockers, notFull, notEmpty, inside, panicked, put, got, queued, served)
    }

    ghost predicate Valid()
      reads this, buf
    {
      Shaped() && Ordered(View()) && (!panicked ==> Inv(View()))
    }

    /** intq_init. */
    constructor ()
      ensures Valid() && fresh(buf) && View() == Fresh()
    {
      buf := new Byte[BUFSIZE](_ => 0);
      head, tail, holder, lockers, notFull, notEmpty := 0, 0, None, [], None, None;
      inside, panicked, put, got, queued, served := map[], false, [], [], [], [];
      new;
      FreshInv();
    }

    predicate Empty()
      reads this, buf
      requires Shaped()
      ensures Empty() <==> Contents() == []
    {
      head == tail
    }

    predicate Full()
      reads this, buf
      requires Shaped()
      ensures Full() <==> |Contents()| == CAPACITY
    {
      NextPos(head) == tail
    }

    /** The end of intq_getc. */
    method Take() returns (byte: Byte)
      requires Shaped() && !Empty()
      modifies this
      ensures Shaped() && View() == Removed(old(View())) && byte == old(Contents())[0]
    {
      RingGet(buf[..], tail, head);
      byte := buf[tail];
      tail := NextPos(tail);
      inside := Signalled(inside, notFull);
      notFull := None;
      got := got + [byte];
    }

    /** The end of intq_putc. */
    method Store(byte: Byte)
      requires Shaped() && !Full()
      modifies this, buf
      ensures Shaped() && View() == Added(old(View()), byte)
    {
      RingPut(buf[..], tail, head, byte);
      ghost var before := buf[..];
      buf[head] := byte;
      assert buf[..] == before[head := byte];
      head := NextPos(head);
      inside := Signalled(inside, notEmpty);
      notEmpty := None;
      put := put + [byte];
    }

    /** The test of the waiting loop. */
    predicate MustWait(w: Want)
      reads this, buf
      requires Shaped()
      ensures MustWait(w) <==> Blocked(View(), w)
    {
      if w.Put? then Full() else Empty()
    }

    /** lock_acquire, then wait. */
    method LockAndWait(t: nat, w: Want)
      requires Shaped()
      modifies this
      ensures Shaped() && View() == Lock(old(View()), t, w)
    {
      if holder.Some? {
        lockers, inside, queued := lockers + [t], inside[t := Locking(w)], queued + [t];
        return;
      }
      holder := Some(t);
      if !MustWait(w) {
        panicked := true;
      } else {
        inside := inside[t := Waiting(w)];
        if w.Put? {
          notFull := Some(t);
        } else {
          notEmpty := Some(t);
        }
      }
    }

    /** lock_release by a thread that has just been woken. */
    method Release(t: nat)
      requires Shaped()
      modifies this`holder, this`lockers, this`inside, this`served
      ensures Shaped() && View() == Unlock(Left(old(View()), t))
    {
      inside := inside - {t};
      holder := None;
      if lockers != [] {
        if lockers[0] in inside {
          inside := inside[lockers[0] := LockReady(inside[lockers[0]].want)];
        }
        served := served + [lockers[0]];
        lockers := lockers[1..];
      }
    }

    /** intq_putc or intq_getc from the test of its loop up to where the thread blocks or returns. */
    method Try(t: nat, w: Want) returns (done: bool, byte: Byte)
      requires Shaped()
      modifies this, buf
      ensures Shaped() && View() == Attempt(old(View()), t, w) && (done <==> !Blocked(old(View()), w))
      ensures done && w.Get? ==> byte == old(Contents())[0]
    {
      byte := 0;
      done := !MustWait(w);
      if !done {
        LockAndWait(t, w);
      } else {
        match w
        case Put(b) => Store(b);
        case Get => byte := Take();
      }
    }

    /** A thread calls intq_putc or intq_getc. */
    method Call(t: nat, w: Want) returns (done: bool, byte: Byte)
      requires Valid() && !panicked && t !in inside
      modifies this, buf
      ensures Valid() && View() == Next(old(View()), Enter(t, w)) && !panicked
      ensures done <==> Completed(old(View()), Enter(t, w)).Some?
      ensures done && w.Get? ==> byte == old(Contents())[0]
    {
      hide Attempt;
      StepKeeps(View(), Enter(t, w));
      done, byte := Try(t, w);
    }

    /** A thread inside that has been woken runs until it blocks again, returns, or fails the assertion of wait. */
    method Continue(t: nat) returns (done: bool, byte: Byte)
      requires Valid() && !panicked && t in inside && Runnable(inside[t])
      modifies this, buf
      ensures Valid() && View() == Next(old(View()), Resume(t))
      ensures panicked <==> Fails(old(View()), Resume(t))
      ensures done <==> Completed(old(View()), Resume(t)).Some?
      ensures done && old(inside[t]).want.Get? ==> byte == old(Contents())[0]
    {
      hide Attempt, Lock, Unlock, Inv;
      StepKeeps(View(), Resume(t));
      var w := inside[t].want;
      done, byte := false, 0;
      if inside[t].LockReady? {
        inside := inside - {t};
        LockAndWait(t, w);
      } else {
        UnlockKeeps(View(), t);
        Release(t);
        done, byte := Try(t, w);
      }
    }

    /** intq_getc by an interrupt handler or by polling; the queue is not empty. */
    method Getc() returns (byte: Byte)
      requires Valid() && !panicked && !Empty()
      modifies this
      ensures Valid() && View() == Next(old(View()), TakeByte) && !panicked && old(Contents()) == [byte] + Contents()
    {
      hide Removed;
      StepKeeps(View(), TakeByte);
      StepEffect(View(), TakeByte);
      byte := Take();
    }

    /** intq_putc by an interrupt handler; the queue is not full. */
    method Putc(byte: Byte)
      requires Valid() && !panicked && !Full()
      modifies this, buf
      ensures Valid() && View() == Next(old(View()), GiveByte(byte)) && !panicked && Contents() == old(Contents()) + [byte]
    {
      hide Added;
      StepKeeps(View(), GiveByte(byte));
      StepEffect(View(), GiveByte(byte));
      Store(byte);
    }
  }
}
