/**
 * The multi-threaded runtime's run queues (`zedio::async::detail`), one method call at a time:
 * every compare-and-swap succeeds on its first attempt, so the retry loops run once. Coroutine
 * handles are opaque task ids.
 */
module AsyncQueue {
  import opened Wrappers
  import opened Wrap

  type Task = nat

  /** The shared FIFO every worker may push to and pop from. */
  class GlobalQueue {
    var tasks: seq<Task>
    var num: nat
    var isClosed: bool

    predicate Valid()
      reads this
    {
      num == |tasks|
    }

    constructor()
      ensures Valid() && tasks == [] && !isClosed
    {
      tasks, num, isClosed := [], 0, false;
    }

    /** `size()`: the counter, which always equals the number of queued tasks. */
    function Size(): (n: nat)
      reads this
      requires Valid()
      ensures n == |tasks|
    {
      num
    }

    /** `empty()`. */
    function Empty(): (b: bool)
      reads this
      requires Valid()
      ensures b <==> tasks == []
    {
      num == 0
    }

    /** `is_closed()`. */
    function IsClosed(): (b: bool)
      reads this
      ensures b <==> isClosed
    {
      isClosed
    }

    /** `push(task)`: appends, unless closed. */
    method Push(task: Task)
      requires Valid()
      modifies this
      ensures Valid() && isClosed == old(isClosed)
      ensures tasks == if old(isClosed) then old(tasks) else old(tasks) + [task]
    {
      if isClosed {
        return;
      }
      tasks := tasks + [task];
      num := num + 1;
    }

    /** `push(tasks, n)`: splices a list of n tasks at the back, unless closed. */
    method PushBatch(batch: seq<Task>, n: nat)
      requires Valid() && n == |batch|
      modifies this
      ensures Valid() && isClosed == old(isClosed)
      ensures tasks == if old(isClosed) then old(tasks) else old(tasks) + batch
    {
      if isClosed {
        return;
      }
      tasks := tasks + batch;
      num := num + n;
    }

    /** `pop()`: the oldest task, or none when empty. */
    method Pop() returns (r: Option<Task>)
      requires Valid()
      modifies this
      ensures Valid() && isClosed == old(isClosed)
      ensures r.None? <==> old(tasks) == []
      ensures r.None? ==> tasks == old(tasks)
      ensures r.Some? ==> r.value == old(tasks)[0] && tasks == old(tasks)[1..]
    {
      if tasks == [] {
        return None;
      }
      r := Some(tasks[0]);
      tasks := tasks[1..];
      num := num - 1;
    }

    /** `pop_n(n)`: n is clamped to the size, and that many tasks are removed from the front. */
    method PopN(n: nat) returns (result: seq<Task>, taken: nat)
      requires Valid()
      modifies this
      ensures Valid() && isClosed == old(isClosed)
      ensures taken == if n < old(|tasks|) then n else old(|tasks|)
      ensures result == old(tasks)[..taken] && tasks == old(tasks)[taken..]
    {
      taken := if num < n then num else n;
      num := num - taken;
      result := tasks[..taken];
      tasks := tasks[taken..];
    }

    /** `close()`: true only for the call that closes the queue. */
    method Close() returns (closedNow: bool)
      modifies this
      ensures closedNow <==> !old(isClosed)
      ensures isClosed && tasks == old(tasks) && num == old(num)
    {
      if isClosed {
        return false;
      }
      isClosed := true;
      closedNow := true;
    }
  }

  /**
   * A worker's bounded queue: a head word packing (steal, real), a u32 tail and CAPACITY
   * cells indexed by `counter & MASK`. The queued tasks run from `real` to `tail`. The head
   * word is held as its two halves; `Head()` is the packed word, and every store of the
   * source writes `pack(steal, real)`, which `Wrap.UnpackPack` shows loses nothing.
   */
  class LocalQueue {
    var steal: nat
    var realPos: nat
    var tail: nat
    const buffer: array<Task>

    function Steal(): nat
      reads this
    {
      steal
    }

    function Real(): nat
      reads this
    {
      realPos
    }

    /** `head_`, the packed word. */
    function Head(): (h: nat)
      reads this
      requires steal < U32 && realPos < U32
      ensures h < U32 * U32 && Unpack(h) == (steal, realPos)
    {
      UnpackPack(steal, realPos);
      Pack(steal, realPos)
    }

    /** Counters in range, at most CAPACITY cells from steal to tail, and real between them. */
    predicate Valid()
      reads this
    {
      buffer.Length == CAPACITY && steal < U32 && realPos < U32 && tail < U32
      && Sub32(tail, steal) <= CAPACITY
      && Sub32(realPos, steal) <= Sub32(tail, steal)
    }

    /** `size()`: tail - real (u32). */
    function Size(): (n: nat)
      reads this
      requires Valid()
      ensures n <= CAPACITY
    {
      Sub32(tail, Real())
    }

    /** The queued tasks, oldest first. */
    function Elements(): (s: seq<Task>)
      reads this, buffer
      requires Valid()
      ensures |s| == Size()
    {
      View(buffer[..], Real(), Size())
    }

    constructor()
      ensures Valid() && Elements() == [] && fresh(buffer)
      ensures steal == 0 && realPos == 0 && tail == 0
    {
      steal, realPos, tail := 0, 0, 0;
      buffer := new Task[CAPACITY];
    }

    /** `remaining_slots()`: CAPACITY - (tail - steal). */
    function RemainingSlots(): (n: nat)
      reads this
      requires Valid()
      ensures n + Sub32(tail, Steal()) == CAPACITY
      ensures n <= CAPACITY - Size()
    {
      CAPACITY - Sub32(tail, Steal())
    }

    /** `empty()`. */
    function Empty(): (b: bool)
      reads this, buffer
      requires Valid()
      ensures b <==> Elements() == []
    {
      Size() == 0
    }

    /** `capacity()`: an even number of cells that divides 2^32, so a `uint32_t` counter wraps onto the same cell. */
    function Capacity(): (c: nat)
      ensures c == CAPACITY && c % 2 == 0 && 0x1_0000_0000 % c == 0
    {
      CAPACITY
    }

    /** Storing at the tail slot and advancing the tail appends one task. */
    method PushBackFinish(task: Task)
      requires Valid() && Sub32(tail, Steal()) < CAPACITY
      modifies this, buffer
      ensures Valid() && steal == old(steal) && realPos == old(realPos)
      ensures Sub32(tail, Steal()) == old(Sub32(tail, Steal())) + 1
      ensures Elements() == old(Elements()) + [task]
    {
      ghost var n := Size();
      SlotOfSub(tail, realPos);
      ViewWriteNext(buffer[..], realPos, n, task);
      buffer[Slot(tail)] := task;
      tail := Add32(tail, 1);
      assert Sub32(tail, realPos) == n + 1;
    }

    /**
     * `push_batch(tasks, len)`: refuses (the source throws) when the batch does not fit in
     * CAPACITY - (tail - steal) cells; otherwise appends the batch in order.
     */
    method PushBatch(tasks: seq<Task>, len: nat) returns (ok: bool)
      requires Valid() && 0 < len <= CAPACITY && len == |tasks|
      modifies this, buffer
      ensures Valid() && steal == old(steal) && realPos == old(realPos)
      ensures ok <==> old(Sub32(tail, Steal())) <= CAPACITY - len
      ensures Elements() == if ok then old(Elements()) + tasks else old(Elements())
    {
      if Sub32(tail, Steal()) > CAPACITY - len {
        return false;
      }
      var k := 0;
      while k < len
        invariant 0 <= k <= len && Valid() && steal == old(steal) && realPos == old(realPos)
        invariant Sub32(tail, Steal()) == old(Sub32(tail, Steal())) + k
        invariant Elements() == old(Elements()) + tasks[..k]
      {
        PushBackFinish(tasks[k]);
        assert tasks[..k + 1] == tasks[..k] + [tasks[k]];
        k := k + 1;
      }
      assert tasks[..len] == tasks;
      ok := true;
    }

    /**
     * `push_back_or_overflow(task, global)`: with a free cell the task is appended locally;
     * while a steal is in progress it goes to the global queue; otherwise the CAPACITY/2
     * oldest tasks and then the task move to the global queue.
     */
    method PushBackOrOverflow(task: Task, global: GlobalQueue)
      requires Valid() && global.Valid()
      modifies this, buffer, global
      ensures Valid() && global.Valid() && global.isClosed == old(global.isClosed)
      ensures old(Sub32(tail, Steal())) < CAPACITY ==>
        Elements() == old(Elements()) + [task] && global.tasks == old(global.tasks)
      ensures old(Steal()) == old(Real()) ==> Steal() == Real()
      ensures old(Sub32(tail, Steal())) == CAPACITY && old(Steal()) != old(Real()) ==>
        Elements() == old(Elements())
        && global.tasks == if old(global.isClosed) then old(global.tasks) else old(global.tasks) + [task]
      ensures old(Sub32(tail, Steal())) == CAPACITY && old(Steal()) == old(Real()) ==>
        Elements() == old(Elements())[CAPACITY / 2..]
        && global.tasks == if old(global.isClosed) then old(global.tasks)
                           else old(global.tasks) + old(Elements())[..CAPACITY / 2] + [task]
    {
      if Sub32(tail, Steal()) < CAPACITY {
        PushBackFinish(task);
      } else if Steal() != Real() {
        global.Push(task);
      } else {
        PushOverflow(task, global);
      }
    }

    /** `push_overflow`: the queue is full and no steal is in progress. */
    method PushOverflow(task: Task, global: GlobalQueue)
      requires Valid() && global.Valid()
      requires Sub32(tail, Steal()) == CAPACITY && Steal() == Real()
      modifies this, global
      ensures Valid() && global.Valid() && global.isClosed == old(global.isClosed)
      ensures Steal() == Real()
      ensures Elements() == old(Elements())[CAPACITY / 2..]
      ensures global.tasks == if old(global.isClosed) then old(global.tasks)
                              else old(global.tasks) + old(Elements())[..CAPACITY / 2] + [task]
    {
      var taken := CAPACITY / 2;
      var r := Real();
      ghost var before := Elements();
      var moved: seq<Task> := [];
      var i := 0;
      while i < taken
        invariant 0 <= i <= taken && moved == before[..i]
      {
        moved := moved + [buffer[Slot(r + i)]];
        i := i + 1;
      }
      var r2 := Add32(r, taken);
      ViewAdvance(buffer[..], r, CAPACITY, taken);
      steal, realPos := r2, r2;
      global.PushBatch(moved + [task], taken + 1);
    }

    /** `pop()`: none when real == tail, otherwise the oldest task; steal follows real when equal. */
    method Pop() returns (r: Option<Task>)
      requires Valid()
      modifies this
      ensures Valid() && tail == old(tail)
      ensures r.None? <==> old(Elements()) == []
      ensures r.None? ==> steal == old(steal) && realPos == old(realPos)
      ensures r.Some? ==> r.value == old(Elements())[0] && Elements() == old(Elements())[1..]
      ensures old(Steal()) == old(Real()) ==> Steal() == Real()
    {
      var s, rl := Steal(), Real();
      if rl == tail {
        return None;
      }
      var next := Add32(rl, 1);
      steal, realPos := if s == rl then next else s, next;
      ViewAdvance(buffer[..], rl, Sub32(tail, rl), 1);
      r := Some(buffer[Slot(rl)]);
    }

    /**
     * `steal_into2(dst, dst_tail)`: unless a steal is in progress, claims the older half
     * (rounded up) of this queue and copies it into dst's free cells from dst_tail on;
     * dst's own tasks and tail are untouched.
     */
    method StealInto2(dst: LocalQueue, dstTail: nat) returns (n: nat)
      requires Valid() && dst.Valid() && this != dst && buffer != dst.buffer
      requires dstTail == dst.tail && Sub32(dst.tail, dst.Steal()) <= CAPACITY / 2
      modifies this, dst.buffer
      ensures Valid() && dst.Valid() && tail == old(tail)
      ensures n == if old(Steal()) != old(Real()) then 0 else StealCount(old(Size()))
      ensures Elements() == old(Elements())[n..]
      ensures n > 0 ==> Steal() == Real()
      ensures n == 0 ==> steal == old(steal) && realPos == old(realPos)
      ensures dst.Elements() == old(dst.Elements())
      ensures n <= CAPACITY / 2
      ensures View(dst.buffer[..], dst.Real() + dst.Size(), n) == old(Elements())[..n]
    {
      var s, rl := Steal(), Real();
      if s != rl {
        return 0;
      }
      n := Sub32(tail, rl);
      n := n - n / 2;
      if n == 0 {
        return 0;
      }
      ghost var dReal, dSize := dst.Real(), dst.Size();
      SlotOfSub(dstTail, dReal);
      CopyCells(buffer, rl, dst.buffer, dReal, dSize, dstTail, n);
      Claim(n);
    }

    /**
     * The two head updates of `steal_into2` once the tasks are copied: real advances by n,
     * then steal catches up with it.
     */
    method Claim(n: nat)
      requires Valid() && steal == realPos && 0 < n <= Size()
      modifies this
      ensures Valid() && steal == realPos && tail == old(tail)
      ensures Elements() == old(Elements())[n..]
    {
      var nextReal := Add32(realPos, n);
      ViewAdvance(buffer[..], realPos, Sub32(tail, realPos), n);
      realPos := nextReal;
      steal := nextReal;
    }

    /**
     * `steal_into(dst)`: takes `StealTaken(...)` tasks from the front of this queue (none when
     * dst is more than half full, a steal is in progress, or this queue is empty); the last
     * one taken is the result and the others are appended to dst in order.
     */
    method StealInto(dst: LocalQueue) returns (r: Option<Task>)
      requires Valid() && dst.Valid() && this != dst && buffer != dst.buffer
      modifies this, dst, dst.buffer
      ensures Valid() && dst.Valid()
      ensures var k := StealTaken(old(Sub32(dst.tail, dst.steal)), old(steal != realPos), old(Size()));
        (r.None? <==> k == 0) && Elements() == old(Elements())[k..]
        && (r.Some? ==> r.value == old(Elements())[k - 1])
        && dst.Elements() == old(dst.Elements()) + old(Elements())[..if k == 0 then 0 else k - 1]
    {
      var dstTail := dst.tail;
      if Sub32(dstTail, dst.Steal()) > CAPACITY / 2 {
        return None;
      }
      r := StealHalf(dst, dstTail);
    }

    /** `steal_into` once dst is known to be at most half full. */
    method StealHalf(dst: LocalQueue, dstTail: nat) returns (r: Option<Task>)
      requires Valid() && dst.Valid() && this != dst && buffer != dst.buffer
      requires dstTail == dst.tail && Sub32(dst.tail, dst.Steal()) <= CAPACITY / 2
      modifies this, dst, dst.buffer
      ensures Valid() && dst.Valid()
      ensures var k := if old(steal != realPos) then 0 else StealCount(old(Size()));
        (r.None? <==> k == 0) && Elements() == old(Elements())[k..]
        && (r.Some? ==> r.value == old(Elements())[k - 1])
        && dst.Elements() == old(dst.Elements()) + old(Elements())[..if k == 0 then 0 else k - 1]
    {
      ghost var src := Elements();
      var n := StealInto2(dst, dstTail);
      if n == 0 {
        return None;
      }
      var last := dst.TakeStolen(dstTail, n, src[..n]);
      assert src[..n][..n - 1] == src[..n - 1];
      r := Some(last);
    }

    /**
     * The end of `steal_into` on dst: n stolen tasks sit in the cells from dst_tail on; the
     * last is taken as the result and the tail is advanced over the other n - 1.
     */
    method TakeStolen(dstTail: nat, n: nat, ghost moved: seq<Task>) returns (last: Task)
      requires Valid() && dstTail == tail && 0 < n == |moved| <= CAPACITY / 2
      requires Sub32(tail, steal) <= CAPACITY / 2
      requires View(buffer[..], realPos + Size(), n) == moved
      modifies this
      ensures Valid() && steal == old(steal) && realPos == old(realPos)
      ensures last == moved[n - 1] && Elements() == old(Elements()) + moved[..n - 1]
    {
      var k := n - 1;
      var newTail := Add32(dstTail, k);
      ghost var size := Size();
      TailAdvance(tail, realPos, steal, k);
      StolenCells(buffer[..], realPos, size, k, moved);
      last := buffer[Slot(newTail)];
      if k > 0 {
        tail := newTail;
      }
    }
  }

  /**
   * Advancing a tail that is at most CAPACITY/2 past steal by fewer than CAPACITY/2 cells:
   * no counter wraps past another, so both distances grow by exactly k, and the new tail
   * selects the slot k cells past the queued tasks.
   */
  lemma TailAdvance(tail: nat, realPos: nat, steal: nat, k: nat)
    requires tail < U32 && realPos < U32 && steal < U32 && k < CAPACITY / 2
    requires Sub32(tail, steal) <= CAPACITY / 2 && Sub32(realPos, steal) <= Sub32(tail, steal)
    ensures Sub32(Add32(tail, k), steal) == Sub32(tail, steal) + k
    ensures Sub32(Add32(tail, k), realPos) == Sub32(tail, realPos) + k
    ensures Slot(Add32(tail, k)) == Slot(realPos + Sub32(tail, realPos) + k)
  {
    SlotOfSub(tail, realPos);
    SlotOfAdd(tail, k);
    SameSlotShift(tail, realPos + Sub32(tail, realPos), k);
  }

  /**
   * The copy loop of `steal_into2`: n cells of `src` from counter `from` go to the cells of
   * `dst` from counter `dstTail`, which sits just past dst's dSize live cells from dReal; those
   * stay intact when they and the copied cells fit in the ring.
   */
  method CopyCells(src: array<Task>, from: nat, dst: array<Task>, ghost dReal: nat, ghost dSize: nat, dstTail: nat, n: nat)
    requires src.Length == CAPACITY && dst.Length == CAPACITY && src != dst
    requires from < U32 && dstTail < U32 && n <= CAPACITY
    requires Slot(dstTail) == Slot(dReal + dSize)
    modifies dst
    ensures dSize + n <= CAPACITY ==> View(dst[..], dReal, dSize) == old(View(dst[..], dReal, dSize))
    ensures View(dst[..], dReal + dSize, n) == View(src[..], from, n)
  {
    ghost var dBefore := View(dst[..], dReal, dSize);
    ghost var moved := View(src[..], from, n);
    var i := 0;
    while i < n
      invariant 0 <= i <= n
      invariant dSize + n <= CAPACITY ==> View(dst[..], dReal, dSize) == dBefore
      invariant View(dst[..], dReal + dSize, i) == moved[..i]
    {
      SlotOfAdd(from, i);
      SlotOfAdd(dstTail, i);
      SameSlotShift(dstTail, dReal + dSize, i);
      var v := src[Slot(Add32(from, i))];
      assert v == moved[i];
      if dSize + n <= CAPACITY {
        ViewWriteBeyond(dst[..], dReal, dSize, dSize + i, v);
      }
      ViewWriteNext(dst[..], dReal + dSize, i, v);
      assert dReal + (dSize + i) == dReal + dSize + i;
      dst[Slot(Add32(dstTail, i))] := v;
      assert moved[..i + 1] == moved[..i] + [moved[i]];
      i := i + 1;
    }
  }

  /**
   * After the copy, the last stolen task sits n cells past dst's tasks and the n before it
   * extend dst's view.
   */
  lemma StolenCells(b: seq<Task>, dReal: nat, dSize: nat, n: nat, src: seq<Task>)
    requires |b| == CAPACITY && n < |src|
    requires View(b, dReal + dSize, n + 1) == src[..n + 1]
    ensures b[Slot(dReal + dSize + n)] == src[n]
    ensures View(b, dReal, dSize + n) == View(b, dReal, dSize) + src[..n]
  {
    var moved := View(b, dReal + dSize, n + 1);
    assert moved[n] == src[n];
    ViewConcat(b, dReal + dSize, n, 1);
    ViewConcat(b, dReal, dSize, n);
  }

  /**
   * How many tasks `steal_into` takes from a queue of `size` tasks, given dst's load
   * `tail - steal` and whether a steal from the source is already in progress.
   */
  function StealTaken(dstLoad: nat, stealing: bool, size: nat): (k: nat)
    ensures k <= size
    ensures k == 0 <==> dstLoad > CAPACITY / 2 || stealing || size == 0
  {
    if dstLoad > CAPACITY / 2 || stealing then 0 else StealCount(size)
  }

  /** How many tasks a steal takes from a queue of `size`: the older half, rounded up. */
  function StealCount(size: nat): (n: nat)
    ensures n <= size && size - n <= n && (size > 0 ==> n > 0)
  {
    size - size / 2
  }

  /**
   * The local-queue test: CAPACITY + CAPACITY/2 + 1 pushes into an empty local queue leave
   * CAPACITY tasks locally and CAPACITY/2 + 1 in the global queue.
   */
  method OverflowScenario() returns (localSize: nat, globalSize: nat)
    ensures localSize == CAPACITY && globalSize == CAPACITY / 2 + 1
  {
    var gq := new GlobalQueue();
    var lq := new LocalQueue();
    var i := 0;
    while i < CAPACITY + CAPACITY / 2 + 1
      invariant 0 <= i <= CAPACITY + CAPACITY / 2 + 1
      invariant lq.Valid() && gq.Valid() && !gq.isClosed && lq.steal == lq.realPos
      invariant fresh(lq.buffer)
      invariant i <= CAPACITY ==> lq.Size() == i && |gq.tasks| == 0
      invariant i > CAPACITY ==> lq.Size() == i - CAPACITY / 2 - 1 && |gq.tasks| == CAPACITY / 2 + 1
    {
      lq.PushBackOrOverflow(i, gq);
      i := i + 1;
    }
    localSize, globalSize := lq.Size(), gq.Size();
  }
}
