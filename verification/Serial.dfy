/** The serial driver (src/devices/serial.c:61-228) and the input buffer it feeds (src/devices/input.c). The
    bytes written to the port so far are kept in `sent`, those that serial_putc has taken in `accepted`;
    `arrived` and `taken` are the same for the input side. A call that has to wait ends where its thread blocks
    and goes on, once the thread has been woken, in PutcContinue or InputContinue. */
module Serial {
  import opened Options
  import opened Bytes
  import opened QueueMachine
  import opened InterruptQueue

  datatype Mode = Uninit | Poll | Queued

  class Driver {
    const txq: IntQ
    const input: IntQ
    var mode: Mode
    var ierXmit: bool
    var ierRecv: bool
    var sent: seq<Byte>
    ghost var accepted: seq<Byte>
    ghost var arrived: seq<Byte>
    ghost var taken: seq<Byte>

    /** Byte order, and no stall: in queue mode a transmit queue with bytes or an input buffer with room has
        its interrupt enabled. Threads only write to the transmit queue and only read from the input buffer. */
    ghost predicate Valid()
      reads this, txq, txq.buf, input, input.buf
    {
      && txq != input && txq.buf != input.buf && txq.Valid() && input.Valid()
      && sent + txq.Contents() == accepted
      && taken + input.Contents() == arrived
      && (mode == Queued ==> (!txq.Empty() ==> ierXmit) && (!input.Full() ==> ierRecv))
      && (mode != Queued ==> txq.Empty() && txq.inside == map[])
      && OnlyPuts(txq.inside) && OnlyGets(input.inside)
    }

    /** The interrupt-enable register asks for exactly what is needed: transmit interrupts while there are bytes to send,
        receive interrupts while there is room for keys. Only serial_flush leaves it otherwise. */
    ghost predicate IerExact()
      reads this, txq, txq.buf, input, input.buf
      requires txq.Shaped() && input.Shaped()
    {
      mode == Queued ==> ierXmit == !txq.Empty() && ierRecv == !input.Full()
    }

    /** No assertion has failed. */
    predicate Up()
      reads this, txq, input
    {
      !txq.panicked && !input.panicked
    }

    constructor ()
      ensures Valid() && Up() && fresh(txq) && fresh(txq.buf) && fresh(input) && fresh(input.buf)
      ensures mode == Uninit && sent == [] && accepted == [] && arrived == [] && taken == []
    {
      txq := new IntQ();
      input := new IntQ();
      mode, ierXmit, ierRecv, sent := Uninit, false, false, [];
      accepted, arrived, taken := [], [], [];
    }

    /** init_poll. */
    method InitPoll()
      requires Valid() && mode == Uninit
      modifies this`mode, this`ierXmit, this`ierRecv
      ensures Valid() && mode == Poll && !ierXmit && !ierRecv
    {
      ierXmit, ierRecv := false, false;
      mode := Poll;
    }

    /** serial_init_queue. */
    method InitQueue()
      requires Valid() && mode != Queued
      modifies this`mode, this`ierXmit, this`ierRecv
      ensures Valid() && mode == Queued && IerExact()
    {
      if mode == Uninit {
        InitPoll();
      }
      mode := Queued;
      WriteIer();
    }

    /** write_ier. */
    method WriteIer()
      requires txq.Valid() && input.Valid()
      modifies this`ierXmit, this`ierRecv
      ensures ierXmit == !txq.Empty() && ierRecv == !input.Full()
    {
      ierXmit := !txq.Empty();
      ierRecv := !input.Full();
    }

    /** serial_notify. */
    method Notify()
      requires txq.Valid() && input.Valid()
      modifies this`ierXmit, this`ierRecv
      ensures mode == Queued ==> ierXmit == !txq.Empty() && ierRecv == !input.Full()
      ensures mode != Queued ==> ierXmit == old(ierXmit) && ierRecv == old(ierRecv)
    {
      if mode == Queued {
        WriteIer();
      }
    }

    /** putc_poll, once the port is ready. */
    method PutcPoll(byte: Byte)
      modifies this`sent
      ensures sent == old(sent) + [byte]
    {
      sent := sent + [byte];
    }

    /** serial_putc by thread t. With interrupts off it never waits; with interrupts on it waits inside a full
        queue, whose transmit interrupt is then enabled. */
    method Putc(byte: Byte, interruptsOff: bool, t: nat) returns (blocked: bool)
      requires Valid() && Up() && t !in txq.inside
      modifies this, txq, txq.buf
      ensures Valid() && Up() && (mode == Queued <==> old(mode) == Queued) && arrived == old(arrived) && taken == old(taken)
      ensures accepted == if blocked then old(accepted) else old(accepted) + [byte]
      ensures sent == old(sent) ||
              (interruptsOff && old(mode) == Queued && old(txq.Full()) && sent == old(sent) + [old(txq.Contents())[0]]) ||
              (sent == old(sent) + [byte] && old(mode) != Queued)
      ensures blocked <==> old(mode) == Queued && !interruptsOff && old(txq.Full())
      ensures !blocked || old(IerExact()) ==> IerExact()
      ensures blocked ==> t in txq.inside && txq.inside[t].want == Put(byte) && ierXmit
      ensures !blocked ==> t !in txq.inside
    {
      hide Ring, Inv, Next;
      blocked := false;
      if mode != Queued {
        PutcDirect(byte);
        return;
      }
      if interruptsOff && txq.Full() {
        Absent(t);
        SendOne();
      }
      blocked := PutcQueue(byte, t);
    }

    /** A thread outside stays outside when a byte is taken. */
    lemma Absent(t: nat)
      requires Valid() && Up() && !txq.Empty() && t !in txq.inside
      ensures t !in Next(txq.View(), TakeByte).inside
    {
      if t in Next(txq.View(), TakeByte).inside {
        StepWants(txq.View(), TakeByte, t);
      }
    }

    /** intq_putc and write_ier. */
    method PutcQueue(byte: Byte, t: nat) returns (blocked: bool)
      requires Valid() && Up() && mode == Queued && t !in txq.inside
      modifies this, txq, txq.buf
      ensures Valid() && Up() && mode == Queued && arrived == old(arrived) && taken == old(taken) && sent == old(sent)
      ensures accepted == if blocked then old(accepted) else old(accepted) + [byte]
      ensures blocked <==> old(txq.Full())
      ensures !blocked || old(IerExact()) ==> IerExact()
      ensures blocked ==> t in txq.inside && txq.inside[t].want == Put(byte) && ierXmit
      ensures !blocked ==> t !in txq.inside
    {
      hide Ring, Inv, Next, Blocked, Ordered;
      ghost var q := txq.View();
      StepEffect(q, Enter(t, Put(byte)));
      PutsStay(q, Enter(t, Put(byte)));
      if t in Next(q, Enter(t, Put(byte))).inside {
        StepWants(q, Enter(t, Put(byte)), t);
      }
      var done, unused := txq.Call(t, Put(byte));
      blocked := !done;
      FullIsBlocked(q, byte);
      if done {
        WriteIer();
        accepted := accepted + [byte];
      }
    }

    /** serial_putc goes on after its thread has been woken. It fails exactly when the queue's wait does. */
    method PutcContinue(t: nat) returns (done: bool)
      requires Valid() && Up() && mode == Queued && t in txq.inside && Runnable(txq.inside[t])
      modifies this, txq, txq.buf
      ensures Valid() && mode == Queued && arrived == old(arrived) && taken == old(taken) && sent == old(sent)
      ensures !input.panicked && (txq.panicked <==> Fails(old(txq.View()), Resume(t)))
      ensures accepted == if done then old(accepted) + [old(txq.inside[t]).want.byte] else old(accepted)
      ensures t in txq.inside <==> !done && !txq.panicked
      ensures done || old(IerExact()) ==> IerExact()
    {
      hide Ring, Inv, Next, Blocked, Ordered, Fails;
      ghost var q := txq.View();
      ghost var byte := txq.inside[t].want.byte;
      StepEffect(q, Resume(t));
      PutsStay(q, Resume(t));
      var unused;
      done, unused := txq.Continue(t);
      if done {
        WriteIer();
        accepted := accepted + [byte];
      }
    }

    /** serial_putc before the queue is set up. */
    method PutcDirect(byte: Byte)
      requires Valid() && mode != Queued
      modifies this
      ensures Valid() && mode == Poll && sent == old(sent) + [byte] && accepted == old(accepted) + [byte]
      ensures arrived == old(arrived) && taken == old(taken)
    {
      if mode == Uninit {
        InitPoll();
      }
      PutcPoll(byte);
      accepted := accepted + [byte];
    }

    /** serial_flush: everything queued goes out, in order, and a thread waiting for room becomes ready. */
    method Flush()
      requires Valid() && Up()
      modifies this`sent, txq
      ensures Valid() && Up() && txq.Contents() == [] && sent == accepted
      ensures old(txq.notFull).Some? ==> WokenIn(txq.inside, old(txq.notFull).value)
    {
      hide Ring, Inv, Next, WokenIn;
      ghost var waiter := txq.notFull;
      if waiter.Some? {
        WaiterFull();
      }
      while !txq.Empty()
        invariant Valid() && Up()
        invariant waiter.Some? ==> WokenIn(txq.inside, waiter.value) || (txq.notFull == waiter && !txq.Empty())
        decreases |txq.Contents()|
      {
        if waiter.Some? {
          KeepsWoken(txq.View(), waiter.value);
        }
        SendOne();
      }
    }

    lemma WaiterFull()
      requires Valid() && Up() && txq.notFull.Some?
      ensures txq.Full()
    {
    }

    /** serial_interrupt, when the port offers the bytes rx and can take `ready` bytes. It takes in what the
        input buffer has room for, sends what it can, and makes ready whoever waited for either. */
    method Interrupt(rx: seq<Byte>, ready: nat) returns (got: nat)
      requires Valid() && Up() && mode == Queued
      modifies this, txq, input, input.buf
      ensures Valid() && Up() && mode == Queued && accepted == old(accepted) && taken == old(taken)
      ensures got <= |rx| && arrived == old(arrived) + rx[..got] && (got < |rx| ==> input.Full())
      ensures var k := if ready < |old(txq.Contents())| then ready else |old(txq.Contents())|;
        sent == old(sent) + old(txq.Contents())[..k] && txq.Contents() == old(txq.Contents())[k..]
      ensures ready > 0 && old(txq.notFull).Some? ==> WokenIn(txq.inside, old(txq.notFull).value)
      ensures got > 0 && old(input.notEmpty).Some? ==> WokenIn(input.inside, old(input.notEmpty).value)
      ensures IerExact()
    {
      hide Ring, Inv, WokenIn, IntQ.Contents, IntQ.View, OnlyPuts, OnlyGets, Ordered, IntQ.Valid;
      got := Receive(rx);
      Transmit(ready);
      WriteIer();
    }

    /** The receiving loop of serial_interrupt. */
    method Receive(rx: seq<Byte>) returns (got: nat)
      requires Valid() && Up() && mode == Queued
      modifies this`arrived, this`ierXmit, this`ierRecv, input, input.buf
      ensures Valid() && Up() && got <= |rx| && arrived == old(arrived) + rx[..got] && (got < |rx| ==> input.Full())
      ensures got > 0 && old(input.notEmpty).Some? ==> WokenIn(input.inside, old(input.notEmpty).value)
    {
      hide Ring, Inv, Next, WokenIn;
      got := 0;
      ghost var waiter := input.notEmpty;
      while !input.Full() && got < |rx|
        invariant Valid() && Up() && got <= |rx| && arrived == old(arrived) + rx[..got]
        invariant waiter.Some? ==> if got == 0 then input.notEmpty == waiter else WokenIn(input.inside, waiter.value)
        decreases |rx| - got
      {
        if waiter.Some? {
          KeepsFed(input.View(), rx[got], waiter.value);
        }
        InputPutc(rx[got]);
        got := got + 1;
      }
    }

    /** The transmitting loop of serial_interrupt. */
    method Transmit(ready: nat)
      requires Valid() && Up() && mode == Queued
      modifies this`sent, txq
      ensures Valid() && Up()
      ensures var k := if ready < |old(txq.Contents())| then ready else |old(txq.Contents())|;
        sent == old(sent) + old(txq.Contents())[..k] && txq.Contents() == old(txq.Contents())[k..]
      ensures ready > 0 && old(txq.notFull).Some? ==> WokenIn(txq.inside, old(txq.notFull).value)
    {
      hide Ring, IntQ.Contents, Inv, Next, WokenIn, OnlyPuts, OnlyGets, Ordered;
      var k := 0;
      ghost var queued, waiter := txq.Contents(), txq.notFull;
      if waiter.Some? {
        WaiterFull();
      }
      while !txq.Empty() && k < ready
        invariant Valid() && Up() && 0 <= k <= |queued| && k <= ready
        invariant sent == old(sent) + queued[..k] && txq.Contents() == queued[k..]
        invariant waiter.Some? ==> if k == 0 then txq.notFull == waiter && !txq.Empty() else WokenIn(txq.inside, waiter.value)
        decreases ready - k
      {
        Advance(queued, k);
        if waiter.Some? {
          KeepsWoken(txq.View(), waiter.value);
        }
        SendOne();
        k := k + 1;
      }
    }

    /** One byte from the queue to the port. */
    method SendOne()
      requires Valid() && Up() && !txq.Empty()
      modifies this`sent, txq
      ensures Valid() && Up() && sent == old(sent) + [old(txq.Contents())[0]] && txq.Contents() == old(txq.Contents())[1..]
      ensures txq.View() == Next(old(txq.View()), TakeByte)
    {
      hide Ring, Inv, Next, Ordered;
      PutsStay(txq.View(), TakeByte);
      NobodyIn(txq.View());
      var byte := txq.Getc();
      PutcPoll(byte);
    }

    /** input_putc, by the keyboard or by serial_interrupt. */
    method InputPutc(key: Byte)
      requires Valid() && Up() && !input.Full()
      modifies this`arrived, this`ierXmit, this`ierRecv, input, input.buf
      ensures Valid() && Up() && arrived == old(arrived) + [key]
      ensures input.View() == Next(old(input.View()), GiveByte(key)) && IerExact()
    {
      hide Ring, Inv, Next, Ordered;
      GetsStay(input.View(), GiveByte(key));
      input.Putc(key);
      arrived := arrived + [key];
      Notify();
    }

    /** input_getc by thread t: the oldest key, or a wait for one inside the buffer, whose receive interrupt is then
        enabled. */
    method InputGetc(t: nat) returns (key: Option<Byte>)
      requires Valid() && Up() && t !in input.inside
      modifies this`taken, this`ierXmit, this`ierRecv, input, input.buf
      ensures Valid() && Up() && arrived == old(arrived)
      ensures key.None? <==> old(input.Empty())
      ensures key.None? ==> taken == old(taken) && t in input.inside && input.inside[t].want == Get && (mode == Queued ==> ierRecv)
      ensures key.Some? ==> taken == old(taken) + [key.value] && t !in input.inside
      ensures key.Some? || old(IerExact()) ==> IerExact()
    {
      hide Ring, Inv, Next, Ordered;
      ghost var q := input.View();
      StepEffect(q, Enter(t, Get));
      GetsStay(q, Enter(t, Get));
      if t in Next(q, Enter(t, Get)).inside {
        StepWants(q, Enter(t, Get), t);
      }
      var done, byte := input.Call(t, Get);
      key := None;
      if done {
        taken := taken + [byte];
        Notify();
        key := Some(byte);
      }
    }

    /** input_getc goes on after its thread has been woken. */
    method InputContinue(t: nat) returns (key: Option<Byte>)
      requires Valid() && Up() && t in input.inside && Runnable(input.inside[t])
      modifies this`taken, this`ierXmit, this`ierRecv, input, input.buf
      ensures Valid() && arrived == old(arrived) && !txq.panicked && (input.panicked <==> Fails(old(input.View()), Resume(t)))
      ensures taken == if key.Some? then old(taken) + [key.value] else old(taken)
      ensures t in input.inside <==> key.None? && !input.panicked
      ensures key.Some? || old(IerExact()) ==> IerExact()
    {
      hide Ring, Inv, Next, Blocked, Ordered, Fails;
      ghost var q := input.View();
      StepEffect(q, Resume(t));
      GetsStay(q, Resume(t));
      var done, byte := input.Continue(t);
      key := None;
      if done {
        taken := taken + [byte];
        Notify();
        key := Some(byte);
      }
    }

    /** No thread is stranded: when none of those inside the transmit queue is ready, its interrupt is enabled and
        there are bytes whose sending will make the first of them ready; likewise for the input buffer. */
    lemma NoStall()
      requires Valid() && Up() && mode == Queued
      ensures txq.inside != map[] && Idle(txq.View()) ==>
        ierXmit && txq.Full() && txq.notFull.Some? && txq.notFull == txq.holder
      ensures input.inside != map[] && Idle(input.View()) ==>
        ierRecv && input.Empty() && input.notEmpty.Some? && input.notEmpty == input.holder
    {
      if txq.inside != map[] && Idle(txq.View()) {
        QueueMachine.NoStall(txq.View());
        assert PlaceOk(txq.View(), txq.holder.value);
      }
      if input.inside != map[] && Idle(input.View()) {
        QueueMachine.NoStall(input.View());
        assert PlaceOk(input.View(), input.holder.value);
      }
    }
  }

  ghost predicate OnlyPuts(inside: map<nat, Place>)
  {
    forall t | t in inside :: inside[t].want.Put?
  }

  ghost predicate OnlyGets(inside: map<nat, Place>)
  {
    forall t | t in inside :: inside[t].want.Get?
  }

  ghost predicate WokenIn(inside: map<nat, Place>, t: nat)
  {
    t in inside && Runnable(inside[t])
  }

  lemma PutsStay(q: Queue, a: Step)
    requires Inv(q) && Enabled(q, a) && OnlyPuts(q.inside) && (a.Enter? ==> a.want.Put?)
    ensures OnlyPuts(Next(q, a).inside)
  {
    hide Inv, Next, Enabled;
    forall u | u in Next(q, a).inside ensures Next(q, a).inside[u].want.Put? {
      StepWants(q, a, u);
    }
  }

  lemma GetsStay(q: Queue, a: Step)
    requires Inv(q) && Enabled(q, a) && OnlyGets(q.inside) && (a.Enter? ==> a.want.Get?)
    ensures OnlyGets(Next(q, a).inside)
  {
    hide Inv, Next, Enabled;
    forall u | u in Next(q, a).inside ensures Next(q, a).inside[u].want.Get? {
      StepWants(q, a, u);
    }
  }

  lemma KeepsWoken(q: Queue, t: nat)
    requires Inv(q) && Enabled(q, TakeByte) && (WokenIn(q.inside, t) || q.notFull == Some(t))
    ensures WokenIn(Next(q, TakeByte).inside, t)
  {
    hide Inv, Next;
    StepReady(q, TakeByte, t);
  }

  lemma KeepsFed(q: Queue, byte: Byte, t: nat)
    requires Inv(q) && Enabled(q, GiveByte(byte)) && (WokenIn(q.inside, t) || q.notEmpty == Some(t))
    ensures WokenIn(Next(q, GiveByte(byte)).inside, t)
  {
    hide Inv, Next;
    StepReady(q, GiveByte(byte), t);
  }

  lemma NobodyIn(q: Queue)
    requires Inv(q) && Enabled(q, TakeByte)
    ensures q.inside == map[] ==> Next(q, TakeByte).inside == map[]
  {
  }

  lemma FullIsBlocked(q: Queue, byte: Byte)
    ensures Blocked(q, Put(byte)) <==> |q.contents| == CAPACITY
  {
  }

  lemma Advance(q: seq<Byte>, k: nat)
    requires k < |q|
    ensures q[..k] + [q[k]] == q[..k + 1] && q[k..][1..] == q[k + 1..] && q[k..][0] == q[k]
  {
  }
}
