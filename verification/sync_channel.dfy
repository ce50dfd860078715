/**
 * `zedio::sync::detail::Channel<T>`: a bounded buffer (a `HeapRingBuffer`) with lists of
 * parked send and receive awaiters. The channel mutex serialises every `await_suspend`, so each
 * is one step here. `schedule_task` on the current worker is recorded by appending the handle to
 * `scheduled`, the order in which the worker receives the parked coroutines.
 */
module SyncChannel {
  import opened Wrappers
  import opened Errors
  import UtilRingBuffer

  type Handle = nat

  /** `std::size_t`'s largest value: `fetch_sub` on 0 wraps to it, `fetch_add` on it wraps to 0. */
  const SIZE_MAX: nat := 0xFFFF_FFFF_FFFF_FFFF

  /** The awaiter of `send(value)`; `result` is what `await_resume` hands back. */
  class SendAwaiter<T> {
    const value: T
    var result: Result<(), ErrorCode>
    var handle: Handle

    /** A fresh awaiter reports ClosedChannel until a path marks it successful. */
    constructor(v: T)
      ensures value == v && result == Err(ClosedChannel)
    {
      value := v;
      result := Err(ClosedChannel);
      handle := 0;
    }
  }

  /** The awaiter of `recv()`; `result` is what `await_resume` hands back. */
  class RecvAwaiter<T> {
    var result: Result<T, ErrorCode>
    var handle: Handle

    /** A fresh awaiter reports ClosedChannel until a value reaches it. */
    constructor()
      ensures result == Err(ClosedChannel)
    {
      result := Err(ClosedChannel);
      handle := 0;
    }
  }

  /** The handles of parked senders, in list order. */
  function SenderHandles<T>(ws: seq<SendAwaiter<T>>): (hs: seq<Handle>)
    reads set w | w in ws
    ensures |hs| == |ws| && forall i :: 0 <= i < |ws| ==> hs[i] == ws[i].handle
  {
    if ws == [] then [] else SenderHandles(ws[..|ws| - 1]) + [ws[|ws| - 1].handle]
  }

  /** The handles of parked receivers, in list order. */
  function ReceiverHandles<T>(rs: seq<RecvAwaiter<T>>): (hs: seq<Handle>)
    reads set r | r in rs
    ensures |hs| == |rs| && forall i :: 0 <= i < |rs| ==> hs[i] == rs[i].handle
  {
    if rs == [] then [] else ReceiverHandles(rs[..|rs| - 1]) + [rs[|rs| - 1].handle]
  }

  /** `fetch_sub(1)` on a `std::size_t` counter: the new value, wrapping below zero. */
  function Decrement(n: nat): (m: nat)
    requires n <= SIZE_MAX
    ensures m <= SIZE_MAX && (m + 1) % (SIZE_MAX + 1) == n
  {
    if n == 0 then SIZE_MAX else n - 1
  }

  /** `fetch_add(1)` on a `std::size_t` counter: the new value, wrapping past SIZE_MAX. */
  function Increment(n: nat): (m: nat)
    requires n <= SIZE_MAX
    ensures m <= SIZE_MAX && Decrement(m) == n
  {
    if n == SIZE_MAX then 0 else n + 1
  }

  /** The two `schedule_task` loops of `destroy`: every parked sender, then every parked receiver. */
  method ParkedHandles<T>(ws: seq<SendAwaiter<T>>, rs: seq<RecvAwaiter<T>>) returns (handed: seq<Handle>)
    ensures handed == SenderHandles(ws) + ReceiverHandles(rs)
  {
    handed := [];
    for k := 0 to |ws|
      invariant handed == SenderHandles(ws[..k])
    {
      assert ws[..k + 1][..k] == ws[..k];
      handed := handed + [ws[k].handle];
    }
    assert ws[..|ws|] == ws;
    ghost var senders := handed;
    for k := 0 to |rs|
      invariant handed == senders + ReceiverHandles(rs[..k])
    {
      assert rs[..k + 1][..k] == rs[..k];
      handed := handed + [rs[k].handle];
    }
    assert rs[..|rs|] == rs;
  }

  class Channel<T(0)> {
    var numSenders: nat
    var numReceivers: nat
    const buf: UtilRingBuffer.HeapRingBuffer<T>
    var waitingSenders: seq<SendAwaiter<T>>
    var waitingReceivers: seq<RecvAwaiter<T>>
    var isClosed: bool
    var scheduled: seq<Handle>

    /**
     * Senders park only on a full buffer and receivers only on an empty one, so the two lists
     * are never both occupied, and a closed channel has no parked awaiters.
     */
    predicate Valid()
      reads this, buf
    {
      buf.Valid() && numSenders <= SIZE_MAX && numReceivers <= SIZE_MAX
      && (waitingSenders == [] || waitingReceivers == [])
      && (isClosed ==> waitingSenders == [] && waitingReceivers == [])
    }

    /** The buffer holds only what fits, and parked awaiters match its state. */
    predicate Parked()
      reads this, buf, buf.data
      requires Valid()
    {
      (waitingSenders != [] ==> buf.IsFill()) && (waitingReceivers != [] ==> buf.IsEmpty())
    }

    constructor(senders: nat, receivers: nat, cap: nat)
      requires senders <= SIZE_MAX && receivers <= SIZE_MAX
      ensures Valid() && Parked() && fresh(buf) && fresh(buf.data)
      ensures numSenders == senders && numReceivers == receivers && buf.Capacity() == cap
      ensures buf.Elements() == [] && waitingSenders == [] && waitingReceivers == []
      ensures !isClosed && scheduled == []
    {
      numSenders, numReceivers := senders, receivers;
      buf := new UtilRingBuffer.HeapRingBuffer(cap);
      waitingSenders, waitingReceivers := [], [];
      isClosed, scheduled := false, [];
    }

    /**
     * `SendAwaiter::await_suspend(handle)`: hands the value to the oldest parked receiver if
     * there is one; otherwise buffers it when there is room (whether or not the channel is
     * closed); otherwise parks when open, or finishes at once, still ClosedChannel, when closed.
     */
    method SendSuspend(aw: SendAwaiter<T>, handle: Handle) returns (suspend: bool)
      requires Valid() && Parked() && aw !in waitingSenders
      modifies this, aw, buf, buf.data
      modifies if waitingReceivers == [] then {} else {waitingReceivers[0]}
      ensures Valid() && Parked() && buf.data == old(buf.data) && aw.handle == handle
      ensures isClosed == old(isClosed) && numSenders == old(numSenders) && numReceivers == old(numReceivers)
      ensures old(waitingReceivers) != [] ==>
        !suspend && aw.result == Ok(()) && old(waitingReceivers)[0].result == Ok(aw.value)
        && waitingReceivers == old(waitingReceivers)[1..] && waitingSenders == old(waitingSenders)
        && scheduled == old(scheduled) + [old(waitingReceivers)[0].handle]
        && buf.Elements() == old(buf.Elements())
      ensures old(waitingReceivers) == [] && old(|buf.Elements()|) < buf.Capacity() ==>
        !suspend && aw.result == Ok(()) && buf.Elements() == old(buf.Elements()) + [aw.value]
        && waitingSenders == old(waitingSenders) && waitingReceivers == [] && scheduled == old(scheduled)
      ensures old(waitingReceivers) == [] && old(|buf.Elements()|) == buf.Capacity() ==>
        suspend != old(isClosed) && aw.result == old(aw.result) && buf.Elements() == old(buf.Elements())
        && waitingReceivers == [] && scheduled == old(scheduled)
        && waitingSenders == if old(isClosed) then old(waitingSenders) else old(waitingSenders) + [aw]
    {
      aw.handle := handle;
      if waitingReceivers != [] {
        var receiver := waitingReceivers[0];
        waitingReceivers := waitingReceivers[1..];
        receiver.result := Ok(aw.value);
        scheduled := scheduled + [receiver.handle];
        aw.result := Ok(());
        return false;
      }
      if buf.IsFill() {
        if isClosed {
          return false;
        }
        waitingSenders := waitingSenders + [aw];
        return true;
      } else {
        buf.SafetyPush(aw.value);
        aw.result := Ok(());
        return false;
      }
    }

    /**
     * `RecvAwaiter::await_suspend(handle)` as written: takes the oldest parked sender's value
     * if there is one, even when older values wait in the buffer; otherwise pops the buffer,
     * or parks when open, or finishes at once, still ClosedChannel, when closed.
     */
    method RecvSuspendAsWritten(aw: RecvAwaiter<T>, handle: Handle) returns (suspend: bool)
      requires Valid() && Parked() && aw !in waitingReceivers
      modifies this, aw, buf
      modifies if waitingSenders == [] then {} else {waitingSenders[0]}
      ensures Valid() && Parked() && buf.data == old(buf.data) && aw.handle == handle
      ensures isClosed == old(isClosed) && numSenders == old(numSenders) && numReceivers == old(numReceivers)
      ensures old(waitingSenders) != [] ==>
        !suspend && aw.result == Ok(old(waitingSenders)[0].value) && old(waitingSenders)[0].result == Ok(())
        && waitingSenders == old(waitingSenders)[1..] && waitingReceivers == old(waitingReceivers)
        && scheduled == old(scheduled) + [old(waitingSenders)[0].handle]
        && buf.Elements() == old(buf.Elements())
      ensures old(waitingSenders) == [] && old(buf.Elements()) != [] ==>
        !suspend && aw.result == Ok(old(buf.Elements())[0]) && buf.Elements() == old(buf.Elements())[1..]
        && waitingSenders == [] && waitingReceivers == old(waitingReceivers) && scheduled == old(scheduled)
      ensures old(waitingSenders) == [] && old(buf.Elements()) == [] ==>
        suspend != old(isClosed) && aw.result == old(aw.result) && buf.Elements() == []
        && waitingSenders == [] && scheduled == old(scheduled)
        && waitingReceivers == if old(isClosed) then old(waitingReceivers) else old(waitingReceivers) + [aw]
    {
      aw.handle := handle;
      if waitingSenders != [] {
        var sender := waitingSenders[0];
        waitingSenders := waitingSenders[1..];
        sender.result := Ok(());
        aw.result := Ok(sender.value);
        scheduled := scheduled + [sender.handle];
        return false;
      }
      if buf.IsEmpty() {
        if isClosed {
          return false;
        }
        waitingReceivers := waitingReceivers + [aw];
        return true;
      } else {
        var v := buf.SafetyPop();
        aw.result := Ok(v);
        return false;
      }
    }

    /**
     * `RecvAwaiter::await_suspend(handle)` keeping first-in first-out order: a buffered value
     * goes first, and the oldest parked sender's value then takes the freed cell; a parked
     * sender hands over directly only when nothing is buffered (capacity 0).
     */
    method RecvSuspend(aw: RecvAwaiter<T>, handle: Handle) returns (suspend: bool)
      requires Valid() && Parked() && aw !in waitingReceivers
      modifies this, aw, buf, buf.data
      modifies if waitingSenders == [] then {} else {waitingSenders[0]}
      ensures Valid() && Parked() && buf.data == old(buf.data) && aw.handle == handle
      ensures isClosed == old(isClosed) && numSenders == old(numSenders) && numReceivers == old(numReceivers)
      ensures old(buf.Elements()) != [] ==>
        !suspend && aw.result == Ok(old(buf.Elements())[0]) && waitingReceivers == old(waitingReceivers)
      ensures old(buf.Elements()) != [] && old(waitingSenders) == [] ==>
        buf.Elements() == old(buf.Elements())[1..] && waitingSenders == [] && scheduled == old(scheduled)
      ensures old(buf.Elements()) != [] && old(waitingSenders) != [] ==>
        buf.Elements() == old(buf.Elements())[1..] + [old(waitingSenders)[0].value]
        && old(waitingSenders)[0].result == Ok(())
        && waitingSenders == old(waitingSenders)[1..]
        && scheduled == old(scheduled) + [old(waitingSenders)[0].handle]
      ensures old(buf.Elements()) == [] && old(waitingSenders) != [] ==>
        !suspend && aw.result == Ok(old(waitingSenders)[0].value) && old(waitingSenders)[0].result == Ok(())
        && waitingSenders == old(waitingSenders)[1..] && waitingReceivers == old(waitingReceivers)
        && scheduled == old(scheduled) + [old(waitingSenders)[0].handle] && buf.Elements() == []
      ensures old(buf.Elements()) == [] && old(waitingSenders) == [] ==>
        suspend != old(isClosed) && aw.result == old(aw.result) && buf.Elements() == []
        && waitingSenders == [] && scheduled == old(scheduled)
        && waitingReceivers == if old(isClosed) then old(waitingReceivers) else old(waitingReceivers) + [aw]
    {
      aw.handle := handle;
      if !buf.IsEmpty() {
        var v := buf.SafetyPop();
        aw.result := Ok(v);
        if waitingSenders != [] {
          Refill();
        }
        return false;
      }
      if waitingSenders != [] {
        var sender := waitingSenders[0];
        waitingSenders := waitingSenders[1..];
        sender.result := Ok(());
        aw.result := Ok(sender.value);
        scheduled := scheduled + [sender.handle];
        return false;
      }
      if isClosed {
        return false;
      }
      waitingReceivers := waitingReceivers + [aw];
      return true;
    }

    /** After a pop from a full buffer: the oldest parked sender's value takes the freed cell. */
    method Refill()
      requires buf.Valid() && waitingSenders != [] && |buf.Elements()| < buf.Capacity()
      modifies this, buf, buf.data, waitingSenders[0]
      ensures buf.Valid() && buf.data == old(buf.data)
      ensures buf.Elements() == old(buf.Elements()) + [old(waitingSenders)[0].value]
      ensures old(waitingSenders)[0].result == Ok(()) && waitingSenders == old(waitingSenders)[1..]
      ensures scheduled == old(scheduled) + [old(waitingSenders)[0].handle]
      ensures waitingReceivers == old(waitingReceivers) && isClosed == old(isClosed)
      ensures numSenders == old(numSenders) && numReceivers == old(numReceivers)
    {
      var sender := waitingSenders[0];
      waitingSenders := waitingSenders[1..];
      buf.SafetyPush(sender.value);
      sender.result := Ok(());
      scheduled := scheduled + [sender.handle];
    }

    /** `add_sender()`. */
    method AddSender()
      requires Valid()
      modifies this
      ensures Valid() && numSenders == Increment(old(numSenders))
      ensures numReceivers == old(numReceivers) && isClosed == old(isClosed)
    {
      numSenders := Increment(numSenders);
    }

    /** `add_receiver()`. */
    method AddReceiver()
      requires Valid()
      modifies this
      ensures Valid() && numReceivers == Increment(old(numReceivers))
      ensures numSenders == old(numSenders) && isClosed == old(isClosed)
    {
      numReceivers := Increment(numReceivers);
    }

    /**
     * `destroy()`: the first call closes the channel, schedules every parked sender and then
     * every parked receiver, in list order, and clears both lists; later calls change nothing.
     */
    method Destroy()
      requires Valid() && Parked()
      modifies this
      ensures Valid() && Parked() && isClosed
      ensures waitingSenders == [] && waitingReceivers == []
      ensures scheduled == if old(isClosed) then old(scheduled)
        else old(scheduled) + SenderHandles(old(waitingSenders)) + ReceiverHandles(old(waitingReceivers))
      ensures numSenders == old(numSenders) && numReceivers == old(numReceivers)
    {
      if isClosed {
        return;
      }
      isClosed := true;
      var handles := ParkedHandles(waitingSenders, waitingReceivers);
      scheduled := scheduled + handles;
      waitingSenders, waitingReceivers := [], [];
    }

    /** `sub_sender()`: the sender that takes the count from 1 to 0 destroys the channel. */
    method SubSender()
      requires Valid() && Parked()
      modifies this
      ensures Valid() && Parked() && numSenders == Decrement(old(numSenders)) && numReceivers == old(numReceivers)
      ensures isClosed <==> old(isClosed) || old(numSenders) == 1
      ensures old(numSenders) == 1 ==>
        waitingSenders == [] && waitingReceivers == []
        && scheduled == if old(isClosed) then old(scheduled)
          else old(scheduled) + SenderHandles(old(waitingSenders)) + ReceiverHandles(old(waitingReceivers))
      ensures old(numSenders) != 1 ==>
        waitingSenders == old(waitingSenders) && waitingReceivers == old(waitingReceivers)
        && scheduled == old(scheduled)
    {
      var previous := numSenders;
      numSenders := Decrement(numSenders);
      if previous == 1 {
        Destroy();
      }
    }

    /** `sub_receiver()` as written: it decrements the sender count, not the receiver count. */
    method SubReceiverAsWritten()
      requires Valid() && Parked()
      modifies this
      ensures Valid() && Parked() && numSenders == Decrement(old(numSenders)) && numReceivers == old(numReceivers)
      ensures isClosed <==> old(isClosed) || old(numSenders) == 1
      ensures old(numSenders) == 1 ==>
        waitingSenders == [] && waitingReceivers == []
        && scheduled == if old(isClosed) then old(scheduled)
          else old(scheduled) + SenderHandles(old(waitingSenders)) + ReceiverHandles(old(waitingReceivers))
      ensures old(numSenders) != 1 ==>
        waitingSenders == old(waitingSenders) && waitingReceivers == old(waitingReceivers)
        && scheduled == old(scheduled)
    {
      var previous := numSenders;
      numSenders := Decrement(numSenders);
      if previous == 1 {
        Destroy();
      }
    }

    /** `sub_receiver()` on the receiver count: the last receiver to leave destroys the channel. */
    method SubReceiver()
      requires Valid() && Parked()
      modifies this
      ensures Valid() && Parked() && numReceivers == Decrement(old(numReceivers)) && numSenders == old(numSenders)
      ensures isClosed <==> old(isClosed) || old(numReceivers) == 1
      ensures old(numReceivers) == 1 ==>
        waitingSenders == [] && waitingReceivers == []
        && scheduled == if old(isClosed) then old(scheduled)
          else old(scheduled) + SenderHandles(old(waitingSenders)) + ReceiverHandles(old(waitingReceivers))
      ensures old(numReceivers) != 1 ==>
        waitingSenders == old(waitingSenders) && waitingReceivers == old(waitingReceivers)
        && scheduled == old(scheduled)
    {
      var previous := numReceivers;
      numReceivers := Decrement(numReceivers);
      if previous == 1 {
        Destroy();
      }
    }
  }

  /**
   * One sender and two receivers: when one receiver leaves, `sub_receiver` as written closes
   * the channel under the remaining sender, whose next send into the full buffer fails.
   */
  method ReceiverLeavesScenario() returns (closed: bool, senders: nat, sent: Result<(), ErrorCode>)
    ensures closed && senders == 0 && sent == Err(ClosedChannel)
  {
    var ch := new Channel<int>(1, 2, 0);
    ch.SubReceiverAsWritten();
    closed, senders := ch.isClosed, ch.numSenders;
    var aw := new SendAwaiter(7);
    var suspend := ch.SendSuspend(aw, 1);
    sent := aw.result;
  }

  /** With the receiver count decremented, the same departure leaves the channel open. */
  method ReceiverLeavesCorrectedScenario() returns (closed: bool, senders: nat, receivers: nat)
    ensures !closed && senders == 1 && receivers == 1
  {
    var ch := new Channel<int>(1, 2, 0);
    ch.SubReceiver();
    closed, senders, receivers := ch.isClosed, ch.numSenders, ch.numReceivers;
  }

  /**
   * Capacity 1: send 1 (buffered), send 2 (parks), then receive. As written the receiver gets
   * 2 while 1 still waits in the buffer.
   */
  method RecvOutOfOrderScenario() returns (got: Result<int, ErrorCode>, left: seq<int>)
    ensures got == Ok(2) && left == [1]
  {
    var ch := new Channel<int>(1, 1, 1);
    var s1 := new SendAwaiter(1);
    var p1 := ch.SendSuspend(s1, 1);
    var s2 := new SendAwaiter(2);
    var p2 := ch.SendSuspend(s2, 2);
    var r := new RecvAwaiter();
    var p3 := ch.RecvSuspendAsWritten(r, 3);
    got, left := r.result, ch.buf.Elements();
  }

  /** The same sequence in first-in first-out order: 1 comes out, and 2 moves into the buffer. */
  method RecvInOrderScenario() returns (got: Result<int, ErrorCode>, left: seq<int>, senderDone: bool)
    ensures got == Ok(1) && left == [2] && senderDone
  {
    var ch := new Channel<int>(1, 1, 1);
    var s1 := new SendAwaiter(1);
    var p1 := ch.SendSuspend(s1, 1);
    var s2 := new SendAwaiter(2);
    var p2 := ch.SendSuspend(s2, 2);
    var r := new RecvAwaiter();
    var p3 := ch.RecvSuspend(r, 3);
    got, left, senderDone := r.result, ch.buf.Elements(), s2.result == Ok(());
  }
}
