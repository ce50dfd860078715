/**
 * The older `zed::async::detail::LocalQueue`, as written: its counters are reduced modulo
 * LOCAL_QUEUE_CAPACITY by `wrapping_add`/`wrapping_sub` instead of wrapping at 2^32, so
 * every computed size is below CAPACITY and a queue of CAPACITY tasks reads as empty.
 * One method call at a time, every compare-and-swap succeeding.
 */
module ZedQueue {
  import opened Wrappers
  import opened Wrap
  import AsyncQueue

  type Task = nat

  /** `wrapping_add(a, b)`: (a + b) % CAPACITY in uint32 arithmetic. */
  function WrappingAdd(a: nat, b: nat): (r: nat)
    requires a < U32 && b < U32
    ensures r < CAPACITY && r == Slot(a + b)
  {
    SlotOfAdd(a, b);
    Slot(Add32(a, b))
  }

  /** `wrapping_sub(a, b)`: (a + CAPACITY - b) % CAPACITY in uint32 arithmetic. */
  function WrappingSub(a: nat, b: nat): (r: nat)
    requires a < CAPACITY && b < CAPACITY
    ensures r < CAPACITY && Slot(b + r) == a
  {
    var d := Sub32(Add32(a, CAPACITY), b);
    assert d == a + CAPACITY - b;
    SubWithinRing(a, b);
    Slot(d)
  }

  /** Within one ring, `(a + CAPACITY - b) % CAPACITY` steps on from b arrive at a. */
  lemma SubWithinRing(a: nat, b: nat)
    requires a < CAPACITY && b < CAPACITY
    ensures Slot(a + CAPACITY - b) < CAPACITY && Slot(b + Slot(a + CAPACITY - b)) == a
  {
    if a >= b {
      ShiftByCapacities(a - b, 1);
      assert Slot(a + CAPACITY - b) == a - b;
    } else {
      ShiftByCapacities(a, 1);
      assert Slot(a + CAPACITY - b) == a + CAPACITY - b;
    }
  }

  /** Fewer than CAPACITY steps from b determine the slot they reach. */
  lemma WrappingSubUnique(a: nat, b: nat, r: nat)
    requires a < CAPACITY && b < CAPACITY && r < CAPACITY && Slot(b + r) == a
    ensures WrappingSub(a, b) == r
  {
    SameSlotSameCounter(b, WrappingSub(a, b), r);
  }

  /** Taking the cell at real and advancing it modulo CAPACITY drops the oldest task. */
  lemma PopStep(b: seq<Task>, realPos: nat, tail: nat)
    requires |b| == CAPACITY && realPos < CAPACITY && tail < CAPACITY && realPos != tail
    ensures var next := WrappingAdd(realPos, 1);
      WrappingSub(tail, next) == WrappingSub(tail, realPos) - 1
      && View(b, next, WrappingSub(tail, next)) == View(b, realPos, WrappingSub(tail, realPos))[1..]
  {
    var n := WrappingSub(tail, realPos);
    PopSize(realPos, tail);
    ViewAdvance(b, realPos, n, 1);
    ViewSlotStart(b, realPos + 1, n - 1);
  }

  /** Advancing real by one slot, when it differs from tail, shrinks the size by one. */
  lemma PopSize(realPos: nat, tail: nat)
    requires realPos < CAPACITY && tail < CAPACITY && realPos != tail
    ensures WrappingSub(tail, WrappingAdd(realPos, 1)) == WrappingSub(tail, realPos) - 1
    ensures WrappingAdd(realPos, 1) == Slot(realPos + 1) == Add32(realPos, 1) % CAPACITY
  {
    var n, next := WrappingSub(tail, realPos), WrappingAdd(realPos, 1);
    assert n != 0;
    SameSlotShift(next, realPos + 1, n - 1);
    WrappingSubUnique(tail, next, n - 1);
  }

  /**
   * Storing at the tail cell and advancing it modulo CAPACITY appends the task, except that
   * the CAPACITY-th task wraps the size to 0.
   */
  lemma PushStep(b: seq<Task>, realPos: nat, tail: nat, task: Task)
    requires |b| == CAPACITY && realPos < CAPACITY && tail < CAPACITY
    ensures var n, next := WrappingSub(tail, realPos), WrappingAdd(tail, 1);
      WrappingSub(next, realPos) == (if n == CAPACITY - 1 then 0 else n + 1)
      && (n < CAPACITY - 1 ==> View(b[tail := task], realPos, n + 1) == View(b, realPos, n) + [task])
  {
    var n := WrappingSub(tail, realPos);
    PushSize(realPos, tail);
    if n < CAPACITY - 1 {
      ViewWriteNext(b, realPos, n, task);
    }
  }

  /** Advancing the tail by one slot grows the size by one, wrapping CAPACITY - 1 to 0. */
  lemma PushSize(realPos: nat, tail: nat)
    requires realPos < CAPACITY && tail < CAPACITY
    ensures var n := WrappingSub(tail, realPos);
      WrappingSub(WrappingAdd(tail, 1), realPos) == (if n == CAPACITY - 1 then 0 else n + 1)
  {
    var n, next := WrappingSub(tail, realPos), WrappingAdd(tail, 1);
    SlotStep(realPos + n);
    assert next == Slot(realPos + n + 1);
    if n < CAPACITY - 1 {
      WrappingSubUnique(next, realPos, n + 1);
    } else {
      ShiftByCapacities(realPos, 1);
      WrappingSubUnique(next, realPos, 0);
    }
  }

  /** One step on from the slot of x is the slot of x + 1. */
  lemma SlotStep(x: nat)
    ensures Slot(Slot(x) + 1) == Slot(x + 1)
  {
    var q, r := x / CAPACITY, x % CAPACITY;
    assert x + 1 == CAPACITY * q + (r + 1);
    if r + 1 < CAPACITY {
      assert Slot(x + 1) == r + 1;
    } else {
      assert x + 1 == CAPACITY * (q + 1);
      assert Slot(x + 1) == 0;
    }
  }

  /**
   * The test `wrapping_sub(tail, steal) < CAPACITY` of `push_back_or_overflow` holds for all
   * counters, so the spill branches (hand the task to the global queue, or `push_overflow`)
   * never run; and the assert `wrapping_sub(tail, head) == CAPACITY` of `push_overflow`
   * can never hold.
   */
  lemma CapacityTestAlwaysHolds(tail: nat, steal: nat)
    requires tail < CAPACITY && steal < CAPACITY
    ensures WrappingSub(tail, steal) < CAPACITY
    ensures WrappingSub(tail, steal) != CAPACITY
  {
  }

  class LocalQueue {
    var steal: nat
    var realPos: nat
    var tail: nat
    const buffer: array<Task>

    /** All counters are slot numbers, as `wrapping_add` produces them. */
    predicate Valid()
      reads this
    {
      buffer.Length == CAPACITY && steal < CAPACITY && realPos < CAPACITY && tail < CAPACITY
    }

    /** `size()`: wrapping_sub(tail, real), always below CAPACITY. */
    function Size(): (n: nat)
      reads this
      requires Valid()
      ensures n < CAPACITY
    {
      WrappingSub(tail, realPos)
    }

    /** The tasks `pop` will return, oldest first. */
    function Elements(): (s: seq<Task>)
      reads this, buffer
      requires Valid()
      ensures |s| == Size()
    {
      View(buffer[..], realPos, Size())
    }

    /** `remaining_slots()`. */
    function RemainingSlots(): (n: nat)
      reads this
      requires Valid()
      ensures 0 < n <= CAPACITY
    {
      CAPACITY - WrappingSub(tail, steal)
    }

    /** `empty()`. */
    function Empty(): (b: bool)
      reads this, buffer
      requires Valid()
      ensures b <==> Elements() == []
    {
      Size() == 0
    }

    constructor()
      ensures Valid() && fresh(buffer) && steal == 0 && realPos == 0 && tail == 0
      ensures Elements() == []
    {
      steal, realPos, tail := 0, 0, 0;
      buffer := new Task[CAPACITY];
    }

    /** `push_back_finish`: store at the tail cell, advance the tail modulo CAPACITY. */
    method PushBackFinish(task: Task)
      requires Valid()
      modifies this, buffer
      ensures Valid() && steal == old(steal) && realPos == old(realPos)
      ensures tail == WrappingAdd(old(tail), 1) && buffer[old(tail)] == task
      ensures Size() == if old(Size()) == CAPACITY - 1 then 0 else old(Size()) + 1
      ensures old(Size()) < CAPACITY - 1 ==> Elements() == old(Elements()) + [task]
    {
      PushStep(buffer[..], realPos, tail, task);
      buffer[tail] := task;
      tail := WrappingAdd(tail, 1);
    }

    /**
     * `push_back_or_overflow(task, global)`: by `CapacityTestAlwaysHolds` it always stores the
     * task locally, and the CAPACITY-th task in the queue wraps its size to 0.
     */
    method PushBackOrOverflow(task: Task)
      requires Valid()
      modifies this, buffer
      ensures Valid() && steal == old(steal) && realPos == old(realPos)
      ensures Size() == if old(Size()) == CAPACITY - 1 then 0 else old(Size()) + 1
      ensures old(Size()) < CAPACITY - 1 ==> Elements() == old(Elements()) + [task]
    {
      CapacityTestAlwaysHolds(tail, steal);
      PushBackFinish(task);
    }

    /** `pop()`: none when real == tail, otherwise the task at real; steal follows when equal. */
    method Pop() returns (r: Option<Task>)
      requires Valid()
      modifies this
      ensures Valid() && tail == old(tail)
      ensures r.None? <==> old(Elements()) == []
      ensures r.Some? ==> r.value == old(Elements())[0] && Elements() == old(Elements())[1..]
    {
      if realPos == tail {
        return None;
      }
      var next := WrappingAdd(realPos, 1);
      r := Some(buffer[realPos]);
      PopStep(buffer[..], realPos, tail);
      steal, realPos := if steal == realPos then next else steal, next;
    }

    /**
     * `push_back(tasks, len)`: stores the batch from the tail on, advancing it modulo
     * CAPACITY; the batch is appended when it fits below CAPACITY.
     */
    method PushBack(tasks: seq<Task>, len: nat)
      requires Valid() && 0 < len <= CAPACITY && len == |tasks|
      modifies this, buffer
      ensures Valid() && steal == old(steal) && realPos == old(realPos)
      ensures old(Size()) + len < CAPACITY ==> Elements() == old(Elements()) + tasks
    {
      var k := 0;
      while k < len
        invariant 0 <= k <= len && Valid() && steal == old(steal) && realPos == old(realPos)
        invariant old(Size()) + len < CAPACITY ==>
          Size() == old(Size()) + k && Elements() == old(Elements()) + tasks[..k]
      {
        PushBackFinish(tasks[k]);
        assert tasks[..k + 1] == tasks[..k] + [tasks[k]];
        k := k + 1;
      }
      assert tasks[..len] == tasks;
    }

    /**
     * `steal_into2(dst, dst_tail)`: unless a steal is in progress, claims the older half
     * (rounded up) and copies it to dst's cells from dst_tail on.
     */
    method StealInto2(dst: LocalQueue, dstTail: nat) returns (n: nat)
      requires Valid() && dst.Valid() && this != dst && buffer != dst.buffer && dstTail == dst.tail
      modifies this, dst.buffer
      ensures Valid() && dst.Valid() && tail == old(tail)
      ensures n == if old(steal) != old(realPos) then 0 else AsyncQueue.StealCount(old(Size()))
      ensures Elements() == old(Elements())[n..]
      ensures n == 0 ==> dst.buffer[..] == old(dst.buffer[..])
      ensures dst.Size() + n <= CAPACITY ==> dst.Elements() == old(dst.Elements())
      ensures View(dst.buffer[..], dst.realPos + dst.Size(), n) == old(Elements())[..n]
    {
      var s, rl := steal, realPos;
      if s != rl {
        return 0;
      }
      n := WrappingSub(tail, rl);
      n := n - n / 2;
      if n == 0 {
        return 0;
      }
      ghost var dReal, dSize := dst.realPos, dst.Size();
      AsyncQueue.CopyCells(buffer, s, dst.buffer, dReal, dSize, dstTail, n);
      Claim(n);
    }

    /** The head updates of `steal_into2`: real advances by n, then steal catches up. */
    method Claim(n: nat)
      requires Valid() && steal == realPos && 0 < n <= Size()
      modifies this
      ensures Valid() && steal == realPos && tail == old(tail)
      ensures Elements() == old(Elements())[n..]
    {
      var size := Size();
      var next := WrappingAdd(realPos, n);
      ViewAdvance(buffer[..], realPos, size, n);
      ViewSlotStart(buffer[..], realPos + n, size - n);
      SameSlotShift(next, realPos + n, size - n);
      WrappingSubUnique(tail, next, size - n);
      realPos := next;
      steal := next;
    }

    /**
     * `steal_into(dst)`: refuses when dst's `wrapping_sub(tail, steal)` exceeds CAPACITY/2,
     * a steal is in progress, or this queue reads empty; otherwise the last of the
     * `StealCount` tasks taken is the result and, when they fit, the rest extend dst.
     */
    method StealInto(dst: LocalQueue) returns (r: Option<Task>)
      requires Valid() && dst.Valid() && this != dst && buffer != dst.buffer
      modifies this, dst, dst.buffer
      ensures Valid() && dst.Valid()
      ensures var k := AsyncQueue.StealTaken(old(WrappingSub(dst.tail, dst.steal)), old(steal != realPos), old(Size()));
        (r.None? <==> k == 0) && Elements() == old(Elements())[k..]
        && (r.Some? ==> r.value == old(Elements())[k - 1])
        && (k == 0 ==> dst.Elements() == old(dst.Elements()))
        && (k > 0 && old(dst.Size()) + k <= CAPACITY ==>
              dst.Elements() == old(dst.Elements()) + old(Elements())[..k - 1])
    {
      var dstTail := dst.tail;
      if WrappingSub(dstTail, dst.steal) > CAPACITY / 2 {
        return None;
      }
      ghost var src := Elements();
      var n := StealInto2(dst, dstTail);
      if n == 0 {
        return None;
      }
      var last := dst.TakeStolen(dstTail, n, src[..n]);
      r := Some(last);
    }

    /**
     * The end of `steal_into` on dst: the last of n stolen tasks is the result and the tail
     * advances over the other n - 1.
     */
    method TakeStolen(dstTail: nat, n: nat, ghost moved: seq<Task>) returns (last: Task)
      requires Valid() && dstTail == tail && 0 < n == |moved| <= CAPACITY
      requires View(buffer[..], realPos + Size(), n) == moved
      modifies this
      ensures Valid() && steal == old(steal) && realPos == old(realPos)
      ensures last == moved[n - 1]
      ensures old(Size()) + n <= CAPACITY ==> Elements() == old(Elements()) + moved[..n - 1]
    {
      var k := n - 1;
      var newTail := WrappingAdd(dstTail, k);
      ghost var size := Size();
      SameSlotShift(dstTail, realPos + size, k);
      AsyncQueue.StolenCells(buffer[..], realPos, size, k, moved);
      last := buffer[newTail];
      if k > 0 {
        tail := newTail;
        if size + n <= CAPACITY {
          WrappingSubUnique(tail, realPos, size + k);
        }
      }
    }
  }

  /**
   * CAPACITY pushes into an empty queue (the first half of the zedio queue test) leave a
   * queue whose size reads 0: every task is unreachable by `pop`.
   */
  method PushCapacityLosesAll() returns (size: nat)
    ensures size == 0
  {
    var lq := new LocalQueue();
    var i := 0;
    while i < CAPACITY
      invariant 0 <= i <= CAPACITY && lq.Valid() && fresh(lq.buffer)
      invariant lq.Size() == if i == CAPACITY then 0 else i
    {
      lq.PushBackOrOverflow(i);
      i := i + 1;
    }
    size := lq.Size();
  }
}
