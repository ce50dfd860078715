/**
 * The single-threaded runtime's run queues (`zedio::runtime::current_thread` and the `Queue`
 * behind `CurrentThreadRuntime`). The mutex and the atomic closed flag only serialise calls,
 * so each method is one step; coroutine handles are opaque task ids.
 */
module CurrentThread {
  import opened Wrappers

  type Task = nat

  /** The cross-thread queue of `current_thread/queue.hpp`: a list plus a closed flag. */
  class GlobalQueue {
    var tasks: seq<Task>
    var isClosed: bool

    constructor()
      ensures tasks == [] && !isClosed
    {
      tasks, isClosed := [], false;
    }

    /** `push(handle)`: appends at the back, unless closed. */
    method Push(task: Task)
      modifies this
      ensures isClosed == old(isClosed)
      ensures tasks == if old(isClosed) then old(tasks) else old(tasks) + [task]
    {
      if isClosed {
        return;
      }
      tasks := tasks + [task];
    }

    /** `push_batch(handles)`: splices the whole list onto the back, unless closed. */
    method PushBatch(handles: seq<Task>)
      modifies this
      ensures isClosed == old(isClosed)
      ensures tasks == if old(isClosed) then old(tasks) else old(tasks) + handles
    {
      if isClosed {
        return;
      }
      tasks := tasks + handles;
    }

    /** `pop()`: none once closed, even with tasks left; otherwise the front, if any. */
    method Pop() returns (r: Option<Task>)
      modifies this
      ensures isClosed == old(isClosed)
      ensures r.None? <==> old(isClosed) || old(tasks) == []
      ensures r.Some? ==> r.value == old(tasks)[0] && tasks == old(tasks)[1..]
      ensures r.None? ==> tasks == old(tasks)
    {
      if isClosed {
        return None;
      }
      if tasks != [] {
        r := Some(tasks[0]);
        tasks := tasks[1..];
      } else {
        r := None;
      }
    }

    /** `pop_all()`: an empty list once closed; otherwise every task in order, leaving none. */
    method PopAll() returns (result: seq<Task>)
      modifies this
      ensures isClosed == old(isClosed)
      ensures old(isClosed) ==> result == [] && tasks == old(tasks)
      ensures !old(isClosed) ==> result == old(tasks) && tasks == []
    {
      result := [];
      if isClosed {
        return;
      }
      result, tasks := tasks, result;
    }

    /** `close()`: true only for the call that closes the queue. */
    method Close() returns (closedNow: bool)
      modifies this
      ensures isClosed && tasks == old(tasks)
      ensures closedNow <==> !old(isClosed)
    {
      if isClosed {
        return false;
      }
      isClosed := true;
      return true;
    }

    /** `is_closed()`. */
    function IsClosed(): (b: bool)
      reads this
      ensures b <==> isClosed
    {
      isClosed
    }

    /** `empty()`. */
    function Empty(): (b: bool)
      reads this
      ensures b <==> |tasks| == 0
    {
      tasks == []
    }

    /** `size()`. */
    function Size(): (n: nat)
      reads this
      ensures n == |tasks| && (n == 0 <==> Empty())
    {
      |tasks|
    }
  }

  /** The worker-owned FIFO of `current_thread/queue.hpp`: unbounded, so nothing overflows. */
  class LocalQueue {
    var tasks: seq<Task>

    constructor()
      ensures tasks == []
    {
      tasks := [];
    }

    /** `push_back_or_overflow(task, global)`: appends and leaves the global queue alone. */
    method PushBackOrOverflow(task: Task, global: GlobalQueue)
      modifies this
      ensures tasks == old(tasks) + [task]
      ensures global.tasks == old(global.tasks) && global.isClosed == old(global.isClosed)
    {
      tasks := tasks + [task];
    }

    /** `push(task)`. */
    method Push(task: Task)
      modifies this
      ensures tasks == old(tasks) + [task]
    {
      tasks := tasks + [task];
    }

    /** `push_batch(handles)`: pushes the handles one by one, in list order. */
    method PushBatch(handles: seq<Task>)
      modifies this
      ensures tasks == old(tasks) + handles
    {
      for k := 0 to |handles|
        invariant tasks == old(tasks) + handles[..k]
      {
        assert handles[..k + 1] == handles[..k] + [handles[k]];
        tasks := tasks + [handles[k]];
      }
      assert handles[..|handles|] == handles;
    }

    /** `pop()`: the front task, or none when empty. */
    method Pop() returns (r: Option<Task>)
      modifies this
      ensures r.None? <==> old(tasks) == []
      ensures r.Some? ==> r.value == old(tasks)[0] && tasks == old(tasks)[1..]
      ensures r.None? ==> tasks == old(tasks)
    {
      r := None;
      if tasks != [] {
        r := Some(tasks[0]);
        tasks := tasks[1..];
      }
    }

    /** `size()`. */
    function Size(): (n: nat)
      reads this
      ensures n == |tasks| && (n == 0 <==> Empty())
    {
      |tasks|
    }

    /** `empty()`. */
    function Empty(): (b: bool)
      reads this
      ensures b <==> |tasks| == 0
    {
      tasks == []
    }
  }

  /** The `Queue` of `CurrentThreadRuntime`: a list, a counter kept equal to its length, a flag. */
  class Queue {
    var tasks: seq<Task>
    var num: nat
    var isClosed: bool

    predicate Valid()
      reads this
    {
      num == |tasks|
    }

    constructor()
      ensures Valid() && tasks == [] && !isClosed
    {
      tasks, num, isClosed := [], 0, false;
    }

    /** `size()`: reads the counter, which equals the number of queued tasks. */
    function Size(): (n: nat)
      reads this
      requires Valid()
      ensures n == |tasks|
    {
      num
    }

    /** `empty()`: reads the counter. */
    function Empty(): (b: bool)
      reads this
      requires Valid()
      ensures b <==> tasks == []
    {
      num == 0
    }

    /** `push(task)`: ignored once closed; otherwise appends and counts it. */
    method Push(task: Task)
      requires Valid()
      modifies this
      ensures Valid() && isClosed == old(isClosed)
      ensures tasks == if old(isClosed) then old(tasks) else old(tasks) + [task]
    {
      if isClosed {
        return;
      }
      tasks := tasks + [task];
      num := num + 1;
    }

    /** `pop()`: the front task, or none when empty; closing does not stop it. */
    method Pop() returns (r: Option<Task>)
      requires Valid()
      modifies this
      ensures Valid() && isClosed == old(isClosed)
      ensures r.None? <==> old(tasks) == []
      ensures r.Some? ==> r.value == old(tasks)[0] && tasks == old(tasks)[1..]
      ensures r.None? ==> tasks == old(tasks)
    {
      if tasks == [] {
        return None;
      }
      r := Some(tasks[0]);
      tasks := tasks[1..];
      num := num - 1;
    }

    /** `close()`: sets the flag; closing twice is the same as closing once. */
    method Close()
      requires Valid()
      modifies this
      ensures Valid() && isClosed && tasks == old(tasks)
    {
      if !isClosed {
        isClosed := true;
      }
    }

    /** `is_closed()`. */
    function IsClosed(): (b: bool)
      reads this
      ensures b <==> isClosed
    {
      isClosed
    }
  }

  /** The runtime state `next_task` reads: only the queue matters here. */
  class Shared {
    const queue: Queue

    constructor()
      ensures queue.Valid() && queue.tasks == [] && !queue.isClosed && fresh(queue)
    {
      queue := new Queue();
    }

    /** `next_task()`: none exactly when the queue is empty, otherwise its front task. */
    method NextTask() returns (r: Option<Task>)
      requires queue.Valid()
      modifies queue
      ensures queue.Valid() && queue.isClosed == old(queue.isClosed)
      ensures r.None? <==> old(queue.tasks) == []
      ensures r.Some? ==> r.value == old(queue.tasks)[0] && queue.tasks == old(queue.tasks)[1..]
      ensures r.None? ==> queue.tasks == old(queue.tasks)
    {
      if queue.Empty() {
        return None;
      }
      r := queue.Pop();
    }

    /** `close()`: closes the queue. */
    method Close()
      requires queue.Valid()
      modifies queue
      ensures queue.Valid() && queue.isClosed && queue.tasks == old(queue.tasks)
    {
      queue.Close();
    }
  }

  /**
   * Tasks leave a `Queue` in the order they were pushed, and a closed queue still drains
   * what it held: pushes a, b, close, push c, then three `next_task` calls.
   */
  method FifoThenClosedScenario(a: Task, b: Task, c: Task) returns (first: Option<Task>, second: Option<Task>, third: Option<Task>)
    ensures first == Some(a) && second == Some(b) && third == None
  {
    var shared := new Shared();
    shared.queue.Push(a);
    shared.queue.Push(b);
    shared.Close();
    shared.queue.Push(c);
    first := shared.NextTask();
    second := shared.NextTask();
    third := shared.NextTask();
  }

  /** A closed `GlobalQueue` hands nothing out, by `pop` or `pop_all`, though tasks remain. */
  method ClosedGlobalScenario(a: Task) returns (popped: Option<Task>, all: seq<Task>, left: nat)
    ensures popped == None && all == [] && left == 1
  {
    var g := new GlobalQueue();
    g.Push(a);
    var first := g.Close();
    var second := g.Close();
    assert first && !second;
    popped := g.Pop();
    all := g.PopAll();
    left := g.Size();
  }
}
