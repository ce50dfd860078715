/**
 * The older `zedio::async::Channel<T>`: a `HeapRingBuffer` plus queues of parked readers and
 * writers, each represented by its awaiter's `Data` record. The channel mutex serialises every
 * step, so each `await_suspend`, `await_resume` and `close` is one method. `schedule_task` on
 * the current worker is recorded by appending the handle to `scheduled`.
 *
 * As written, a reader that finds a parked writer takes that writer's value even when older
 * values sit in the buffer (`ReadOvertakesBufferScenario`); `ReadSuspendInOrder` is the
 * first-in, first-out read the other scenarios use (`ReadInOrderScenario`).
 */
module AsyncChannel {
  import opened Wrappers
  import UtilRingBuffer

  type Handle = nat

  /** An awaiter's shared record: the value slot, the coroutine, and the wake-up-other flag. */
  class Data<T> {
    var value: Option<T>
    var handle: Handle
    var needWakeUpOther: bool

    /** A reader's record starts with no value; a writer's with the value to send. */
    constructor(v: Option<T>)
      ensures value == v && !needWakeUpOther
    {
      value, handle, needWakeUpOther := v, 0, false;
    }
  }

  /** The handles of parked records, front first. */
  function Handles<T>(ds: seq<Data<T>>): (hs: seq<Handle>)
    reads set d | d in ds
    ensures |hs| == |ds| && forall i :: 0 <= i < |ds| ==> hs[i] == ds[i].handle
  {
    if ds == [] then [] else Handles(ds[..|ds| - 1]) + [ds[|ds| - 1].handle]
  }

  /** No record is parked twice. */
  predicate Distinct<T>(ds: seq<Data<T>>)
  {
    forall i, j :: 0 <= i < j < |ds| ==> ds[i] != ds[j]
  }

  /** The two `while` loops of `close`: every parked reader, then every parked writer. */
  method ParkedHandles<T>(rs: seq<Data<T>>, ws: seq<Data<T>>) returns (handed: seq<Handle>)
    ensures handed == Handles(rs) + Handles(ws)
  {
    handed := [];
    var k := 0;
    while k < |rs|
      invariant 0 <= k <= |rs| && handed == Handles(rs[..k])
    {
      assert rs[..k + 1][..k] == rs[..k];
      handed := handed + [rs[k].handle];
      k := k + 1;
    }
    assert rs[..|rs|] == rs;
    ghost var readers := handed;
    k := 0;
    while k < |ws|
      invariant 0 <= k <= |ws| && handed == readers + Handles(ws[..k])
    {
      assert ws[..k + 1][..k] == ws[..k];
      handed := handed + [ws[k].handle];
      k := k + 1;
    }
    assert ws[..|ws|] == ws;
  }

  class Channel<T(0)> {
    const buffer: UtilRingBuffer.HeapRingBuffer<T>
    var readers: seq<Data<T>>
    var writers: seq<Data<T>>
    var isClosed: bool
    var scheduled: seq<Handle>

    /** Readers and writers never wait together, and a closed channel has nobody waiting. */
    predicate Valid()
      reads this, buffer
    {
      buffer.Valid() && Distinct(readers) && Distinct(writers)
      && (readers == [] || writers == [])
      && (isClosed ==> readers == [] && writers == [])
    }

    /** Parked readers hold no value; parked writers still hold theirs. */
    predicate Holding()
      reads this, readers, writers
    {
      (forall i :: 0 <= i < |readers| ==> readers[i].value.None?)
      && (forall i :: 0 <= i < |writers| ==> writers[i].value.Some?)
    }

    /** Readers wait only on an empty buffer, writers only on a full one. */
    predicate Parked()
      reads this, buffer, buffer.data
      requires Valid()
    {
      (readers != [] ==> buffer.IsEmpty()) && (writers != [] ==> buffer.IsFill())
    }

    /** `Channel(capacity = 0)`. */
    constructor(capacity: nat)
      ensures Valid() && Holding() && Parked() && fresh(buffer) && fresh(buffer.data)
      ensures buffer.Capacity() == capacity && buffer.Elements() == []
      ensures readers == [] && writers == [] && !isClosed && scheduled == []
    {
      buffer := new UtilRingBuffer.HeapRingBuffer(capacity);
      readers, writers := [], [];
      isClosed, scheduled := false, [];
    }

    /** `capacity()`. */
    function Capacity(): (n: nat)
      reads this, buffer
      requires Valid()
      ensures n == buffer.Capacity()
    {
      buffer.data.Length - 1
    }

    /** `size()`: the number of buffered values. */
    function Size(): (n: nat)
      reads this, buffer, buffer.data
      requires Valid()
      ensures n == |buffer.Elements()| <= Capacity()
    {
      buffer.Size()
    }

    /**
     * `ReaderAwaiter::await_suspend(handle)`: on a closed channel resumes with no value; with
     * a parked writer swaps in the writer's value and schedules the writer; otherwise pops the
     * buffer (asking `await_resume` to refill it) or parks.
     */
    method ReadSuspend(d: Data<T>, handle: Handle) returns (suspended: bool)
      requires Valid() && Holding() && Parked() && d.value.None? && !d.needWakeUpOther
      requires d !in readers && d !in writers
      modifies this, d, buffer
      modifies if writers == [] then {} else {writers[0]}
      ensures Valid() && Holding() && Parked() && buffer.data == old(buffer.data) && d.handle == handle
      ensures isClosed == old(isClosed)
      ensures old(isClosed) ==>
        !suspended && d.value.None? && !d.needWakeUpOther && scheduled == old(scheduled)
        && buffer.Elements() == old(buffer.Elements()) && readers == old(readers) && writers == old(writers)
      ensures !old(isClosed) && old(writers) != [] ==>
        !suspended && d.value == old(writers[0].value) && old(writers)[0].value.None?
        && writers == old(writers)[1..] && scheduled == old(scheduled) + [old(writers[0].handle)]
        && buffer.Elements() == old(buffer.Elements()) && !d.needWakeUpOther && readers == old(readers)
      ensures !old(isClosed) && old(writers) == [] && old(buffer.Elements()) != [] ==>
        !suspended && d.value == Some(old(buffer.Elements())[0]) && d.needWakeUpOther
        && buffer.Elements() == old(buffer.Elements())[1..] && readers == old(readers)
        && writers == [] && scheduled == old(scheduled)
      ensures !old(isClosed) && old(writers) == [] && old(buffer.Elements()) == [] ==>
        suspended && d.value.None? && readers == old(readers) + [d] && scheduled == old(scheduled)
        && buffer.Elements() == [] && writers == [] && !d.needWakeUpOther
    {
      d.handle := handle;
      if isClosed {
        return false;
      }
      if writers != [] {
        TakeFromWriter(d);
        return false;
      }
      d.value := buffer.Pop();
      if d.value.Some? {
        d.needWakeUpOther := true;
        return false;
      }
      readers := readers + [d];
      return true;
    }

    /**
     * `ReaderAwaiter::await_suspend(handle)`, corrected to first in, first out: a read takes the
     * oldest buffered value first; when a writer is parked on the full buffer, that writer's
     * value takes the freed cell and the writer is scheduled at once. Only on an empty buffer
     * does a read take a parked writer's value directly.
     */
    method ReadSuspendInOrder(d: Data<T>, handle: Handle) returns (suspended: bool)
      requires Valid() && Holding() && Parked() && d.value.None? && !d.needWakeUpOther
      requires d !in readers && d !in writers
      modifies this, d, buffer, buffer.data
      modifies if writers == [] then {} else {writers[0]}
      ensures Valid() && Holding() && Parked() && buffer.data == old(buffer.data) && d.handle == handle
      ensures isClosed == old(isClosed)
      ensures old(isClosed) ==>
        !suspended && d.value.None? && !d.needWakeUpOther && scheduled == old(scheduled)
        && buffer.Elements() == old(buffer.Elements()) && readers == old(readers) && writers == old(writers)
      ensures !old(isClosed) && old(buffer.Elements()) != [] ==>
        !suspended && d.value == Some(old(buffer.Elements())[0]) && readers == old(readers)
      ensures !old(isClosed) && old(buffer.Elements()) != [] && old(writers) == [] ==>
        d.needWakeUpOther && buffer.Elements() == old(buffer.Elements())[1..]
        && writers == [] && scheduled == old(scheduled)
      ensures !old(isClosed) && old(buffer.Elements()) != [] && old(writers) != [] ==>
        !d.needWakeUpOther && buffer.Elements() == old(buffer.Elements())[1..] + [old(writers[0].value).value]
        && old(writers)[0].value.None? && writers == old(writers)[1..]
        && scheduled == old(scheduled) + [old(writers[0].handle)]
      ensures !old(isClosed) && old(buffer.Elements()) == [] && old(writers) != [] ==>
        !suspended && d.value == old(writers[0].value) && old(writers)[0].value.None?
        && writers == old(writers)[1..] && scheduled == old(scheduled) + [old(writers[0].handle)]
        && buffer.Elements() == [] && !d.needWakeUpOther && readers == old(readers)
      ensures !old(isClosed) && old(writers) == [] && old(buffer.Elements()) == [] ==>
        suspended && d.value.None? && readers == old(readers) + [d] && scheduled == old(scheduled)
        && buffer.Elements() == [] && writers == [] && !d.needWakeUpOther
    {
      d.handle := handle;
      if isClosed {
        return false;
      }
      if !buffer.IsEmpty() {
        d.value := buffer.Pop();
        if writers != [] {
          Refill();
        } else {
          d.needWakeUpOther := true;
        }
        return false;
      }
      if writers != [] {
        TakeFromWriter(d);
        return false;
      }
      readers := readers + [d];
      return true;
    }

    /**
     * `ReaderAwaiter::await_resume()`: after a buffered read, moves the oldest parked writer's
     * value into the freed room and schedules that writer; returns the value read.
     */
    method ReadResume(d: Data<T>) returns (r: Option<T>)
      requires Valid() && Holding() && d !in readers && d !in writers
      requires d.needWakeUpOther ==> !isClosed && d.value.Some?
      modifies this, buffer, buffer.data
      modifies if writers == [] then {} else {writers[0]}
      ensures Valid() && Holding() && (old(Parked()) ==> Parked())
      ensures r == d.value == old(d.value) && isClosed == old(isClosed) && readers == old(readers)
      ensures d.needWakeUpOther && old(writers) != [] && old(|buffer.Elements()|) < buffer.Capacity() ==>
        buffer.Elements() == old(buffer.Elements()) + [old(writers[0].value).value]
        && old(writers)[0].value.None? && writers == old(writers)[1..]
        && scheduled == old(scheduled) + [old(writers[0].handle)]
      ensures old(Parked()) || !(d.needWakeUpOther && old(writers) != [] && old(|buffer.Elements()|) < buffer.Capacity()) ==>
        buffer.Elements() == old(buffer.Elements()) && writers == old(writers)
        && scheduled == old(scheduled) && buffer.data == old(buffer.data)
    {
      if !d.needWakeUpOther {
        return d.value;
      }
      if writers != [] && !buffer.IsFill() {
        Refill();
      }
      return d.value;
    }

    /** A reader takes the oldest parked writer's value directly, and the writer is scheduled. */
    method TakeFromWriter(d: Data<T>)
      requires Valid() && Holding() && writers != [] && d.value.None? && d !in readers && d !in writers
      modifies this, d, writers[0]
      ensures Valid() && Holding()
      ensures d.value == old(writers[0].value) && old(writers)[0].value.None?
      ensures writers == old(writers)[1..] && scheduled == old(scheduled) + [old(writers[0].handle)]
      ensures readers == old(readers) && isClosed == old(isClosed)
      ensures d.handle == old(d.handle) && d.needWakeUpOther == old(d.needWakeUpOther)
    {
      var writer := writers[0];
      d.value, writer.value := writer.value, d.value;
      scheduled := scheduled + [writer.handle];
      writers := writers[1..];
    }

    /** The oldest parked writer's value moves into the buffer's free cell and the writer is scheduled. */
    method Refill()
      requires Valid() && Holding() && writers != [] && |buffer.Elements()| < buffer.Capacity()
      modifies this, buffer, buffer.data, writers[0]
      ensures Valid() && Holding() && buffer.data == old(buffer.data)
      ensures buffer.Elements() == old(buffer.Elements()) + [old(writers[0].value).value]
      ensures old(writers)[0].value.None? && writers == old(writers)[1..]
      ensures scheduled == old(scheduled) + [old(writers[0].handle)]
      ensures readers == old(readers) && isClosed == old(isClosed)
    {
      var writer := writers[0];
      var pushed := buffer.Push(writer.value.value);
      writer.value := None;
      scheduled := scheduled + [writer.handle];
      writers := writers[1..];
    }

    /**
     * `WriterAwaiter::await_suspend(handle)`: on a closed channel resumes still holding the
     * value; with a parked reader swaps the value into it and schedules the reader; otherwise
     * buffers the value (asking `await_resume` to feed a reader) or parks.
     */
    method WriteSuspend(d: Data<T>, handle: Handle) returns (suspended: bool)
      requires Valid() && Holding() && Parked() && d.value.Some? && !d.needWakeUpOther
      requires d !in readers && d !in writers
      modifies this, d, buffer, buffer.data
      modifies if readers == [] then {} else {readers[0]}
      ensures Valid() && Holding() && Parked() && buffer.data == old(buffer.data) && d.handle == handle
      ensures isClosed == old(isClosed)
      ensures old(isClosed) ==>
        !suspended && d.value == old(d.value) && !d.needWakeUpOther && scheduled == old(scheduled)
        && buffer.Elements() == old(buffer.Elements()) && readers == old(readers) && writers == old(writers)
      ensures !old(isClosed) && old(readers) != [] ==>
        !suspended && old(readers)[0].value == old(d.value) && d.value.None?
        && readers == old(readers)[1..] && scheduled == old(scheduled) + [old(readers[0].handle)]
        && buffer.Elements() == old(buffer.Elements()) && !d.needWakeUpOther && writers == old(writers)
      ensures !old(isClosed) && old(readers) == [] && old(|buffer.Elements()|) < buffer.Capacity() ==>
        !suspended && d.value.None? && d.needWakeUpOther
        && buffer.Elements() == old(buffer.Elements()) + [old(d.value).value]
        && writers == old(writers) && readers == [] && scheduled == old(scheduled)
      ensures !old(isClosed) && old(readers) == [] && old(|buffer.Elements()|) == buffer.Capacity() ==>
        suspended && d.value == old(d.value) && writers == old(writers) + [d] && readers == []
        && !d.needWakeUpOther
        && scheduled == old(scheduled) && buffer.Elements() == old(buffer.Elements())
    {
      d.handle := handle;
      if isClosed {
        return false;
      }
      if readers != [] {
        var reader := readers[0];
        reader.value, d.value := d.value, reader.value;
        scheduled := scheduled + [reader.handle];
        readers := readers[1..];
        return false;
      }
      var pushed := buffer.Push(d.value.value);
      if pushed {
        d.value := None;
        d.needWakeUpOther := true;
        return false;
      }
      writers := writers + [d];
      return true;
    }

    /**
     * `WriterAwaiter::await_resume()`: after a buffered write, hands the oldest buffered value
     * to the oldest parked reader and schedules it; reports whether the value left the writer.
     */
    method WriteResume(d: Data<T>) returns (sent: bool)
      requires Valid() && Holding() && d !in readers && d !in writers
      requires d.needWakeUpOther ==> !isClosed && d.value.None?
      modifies this, buffer
      modifies if readers == [] then {} else {readers[0]}
      ensures Valid() && Holding() && (old(Parked()) ==> Parked())
      ensures buffer.data == old(buffer.data) && isClosed == old(isClosed) && writers == old(writers)
      ensures d.value == old(d.value) && (sent <==> d.value.None?)
      ensures d.needWakeUpOther && old(readers) != [] && old(buffer.Elements()) != [] ==>
        old(readers)[0].value == Some(old(buffer.Elements())[0])
        && buffer.Elements() == old(buffer.Elements())[1..] && readers == old(readers)[1..]
        && scheduled == old(scheduled) + [old(readers[0].handle)]
      ensures old(Parked()) || !(d.needWakeUpOther && old(readers) != [] && old(buffer.Elements()) != []) ==>
        buffer.Elements() == old(buffer.Elements()) && readers == old(readers)
        && scheduled == old(scheduled)
    {
      if !d.needWakeUpOther {
        return d.value.None?;
      }
      if readers != [] && !buffer.IsEmpty() {
        var reader := readers[0];
        reader.value := buffer.Pop();
        scheduled := scheduled + [reader.handle];
        readers := readers[1..];
      }
      return true;
    }

    /**
     * `close()`: the first call schedules every parked reader and then every parked writer,
     * empties both queues and marks the channel closed; later calls change nothing.
     */
    method Close()
      requires Valid() && Holding()
      modifies this
      ensures Valid() && Holding() && Parked() && isClosed && readers == [] && writers == []
      ensures scheduled == if old(isClosed) then old(scheduled)
        else old(scheduled) + Handles(old(readers)) + Handles(old(writers))
      ensures buffer.Elements() == old(buffer.Elements())
    {
      if isClosed {
        return;
      }
      var handles := ParkedHandles(readers, writers);
      scheduled := scheduled + handles;
      readers, writers := [], [];
      isClosed := true;
    }
  }

  /**
   * The default capacity 0: a write with no reader waiting parks, and a later read takes its
   * value straight from the writer and schedules it.
   */
  method RendezvousScenario() returns (parked: bool, got: Option<int>, sent: bool)
    ensures parked && got == Some(5) && sent
  {
    var ch := new Channel<int>(0);
    var w := new Data(Some(5));
    parked := ch.WriteSuspend(w, 1);
    assert ch.writers == [w] && ch.readers == [] && !w.needWakeUpOther;
    var r := new Data(None);
    var suspended := ch.ReadSuspendInOrder(r, 2);
    assert r.value == Some(5) && w.value.None? && !r.needWakeUpOther;
    assert ch.writers == [] && ch.readers == [];
    got := ch.ReadResume(r);
    assert ch.readers == [] && ch.writers == [] && !ch.isClosed && w.value.None?;
    sent := ch.WriteResume(w);
  }

  /** Capacity 1: 1 is buffered and the writer of 2, with handle 2, parks on the full buffer. */
  method FullWithParkedWriter() returns (ch: Channel<int>, w2: Data<int>)
    ensures fresh(ch) && fresh(ch.buffer) && fresh(ch.buffer.data) && fresh(w2)
    ensures ch.Valid() && ch.Holding() && ch.Parked() && !ch.isClosed
    ensures ch.buffer.Elements() == [1] && ch.readers == [] && ch.writers == [w2] && ch.scheduled == []
    ensures w2.handle == 2 && w2.value == Some(2) && !w2.needWakeUpOther
  {
    ch := new Channel<int>(1);
    var w1 := new Data(Some(1));
    var p1 := ch.WriteSuspend(w1, 1);
    assert ch.buffer.Elements() == [1] && ch.readers == [] && ch.writers == [] && ch.scheduled == [];
    w2 := new Data(Some(2));
    var p2 := ch.WriteSuspend(w2, 2);
  }

  /**
   * Capacity 1: 1 is buffered, the writer of 2 parks, then a read takes 2 from the writer
   * while 1 stays in the buffer.
   */
  method ReadOvertakesBufferScenario() returns (got: Option<int>, left: seq<int>)
    ensures got == Some(2) && left == [1]
  {
    var ch, w2 := FullWithParkedWriter();
    var r := new Data(None);
    var p3 := ch.ReadSuspend(r, 3);
    assert r.value == Some(2) && !r.needWakeUpOther;
    got := ch.ReadResume(r);
    left := ch.buffer.Elements();
  }

  /**
   * Capacity 1 with the corrected read: 1 is buffered, the writer of 2 parks, then a read takes
   * 1, 2 moves into the buffer, and the writer is scheduled and reports its value sent.
   */
  method ReadInOrderScenario() returns (got: Option<int>, left: seq<int>, woken: seq<Handle>, sent: bool)
    ensures got == Some(1) && left == [2] && woken == [2] && sent
  {
    var ch, w2 := FullWithParkedWriter();
    var r := new Data(None);
    var p3 := ch.ReadSuspendInOrder(r, 3);
    assert r.value == Some(1) && !r.needWakeUpOther && w2.value.None?;
    assert ch.scheduled == [2] && ch.buffer.Elements() == [2] && ch.writers == [];
    got := ch.ReadResume(r);
    left := ch.buffer.Elements();
    woken := ch.scheduled;
    sent := ch.WriteResume(w2);
  }

  /** Closing wakes a parked reader, which then resumes with no value; closing again is a no-op. */
  method CloseWakesReaderScenario() returns (got: Option<int>, woken: seq<Handle>)
    ensures got == None && woken == [7]
  {
    var ch := new Channel<int>(2);
    var r := new Data(None);
    var parked := ch.ReadSuspendInOrder(r, 7);
    assert ch.readers == [r] && r.handle == 7 && ch.scheduled == [];
    ch.Close();
    assert Handles([r]) == [7];
    ch.Close();
    woken := ch.scheduled;
    got := ch.ReadResume(r);
  }

  /** A write to a closed channel resumes at once and reports that nothing was sent. */
  method WriteAfterCloseScenario() returns (suspended: bool, sent: bool)
    ensures !suspended && !sent
  {
    var ch := new Channel<int>(2);
    ch.Close();
    var w := new Data(Some(3));
    suspended := ch.WriteSuspend(w, 8);
    sent := ch.WriteResume(w);
  }
}
