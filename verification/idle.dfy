/**
 * `zedio::async::detail::IdleState` and `Idle`: the multi-threaded runtime's record of how many
 * workers are running and searching, packed in one 64-bit word, and the list of sleeping
 * workers. One call at a time: the mutex and the atomic operations only serialise calls.
 */
module IdleWorkers {
  import opened Wrappers
  import opened Seqs

  /** `1 << WORKING_SHIFT`: the working count starts at bit 16. */
  const UNIT: nat := 0x1_0000
  /** The word holds 64 bits; `fetch_add`/`fetch_sub` wrap modulo this. */
  const WORD: nat := 0x1_0000_0000_0000_0000

  /** `state & SEARCHING_MASK`: the low 16 bits. */
  function SearchingOf(x: nat): (s: nat)
    ensures s < UNIT
  {
    x % UNIT
  }

  /** `(state & WORKING_MASK) >> WORKING_SHIFT`: the bits above the low 16, for a 64-bit word. */
  function WorkingOf(x: nat): (w: nat)
    requires x < WORD
    ensures w < WORD / UNIT
  {
    x / UNIT
  }

  /** The two fields read back what was packed, and every word is its two fields packed. */
  lemma {:induction false} Fields(w: nat, s: nat)
    requires w < WORD / UNIT && s < UNIT
    ensures w * UNIT + s < WORD
    ensures WorkingOf(w * UNIT + s) == w && SearchingOf(w * UNIT + s) == s
  {
    var x := w * UNIT + s;
    assert w * UNIT <= x < (w + 1) * UNIT;
    assert x / UNIT == w;
  }

  class IdleState {
    var state: nat

    predicate Valid()
      reads this
    {
      state < WORD
    }

    /** `num_searching()`. */
    function NumSearching(): (s: nat)
      reads this
      ensures s < UNIT
    {
      SearchingOf(state)
    }

    /** `num_working()`. */
    function NumWorking(): (w: nat)
      reads this
      requires Valid()
      ensures w < WORD / UNIT
    {
      WorkingOf(state)
    }

    /** `IdleState(num_workers)`: num_workers working, none searching. */
    constructor(numWorkers: nat)
      requires numWorkers < WORD / UNIT
      ensures Valid() && NumWorking() == numWorkers && NumSearching() == 0
    {
      Fields(numWorkers, 0);
      state := numWorkers * UNIT % WORD;
    }

    /** `inc_num_searching()`: adds 1 to the word, which adds 1 to the searching count. */
    method IncNumSearching()
      requires Valid() && NumSearching() < UNIT - 1
      modifies this
      ensures Valid() && NumSearching() == old(NumSearching()) + 1 && NumWorking() == old(NumWorking())
    {
      Fields(NumWorking(), NumSearching() + 1);
      state := (state + 1) % WORD;
    }

    /** `dec_num_searching()`: subtracts 1 from the word; true iff the count was 1. */
    method DecNumSearching() returns (last: bool)
      requires Valid() && NumSearching() > 0
      modifies this
      ensures Valid() && NumSearching() == old(NumSearching()) - 1 && NumWorking() == old(NumWorking())
      ensures last <==> old(NumSearching()) == 1
    {
      var prev := state;
      Fields(NumWorking(), NumSearching() - 1);
      state := (state + WORD - 1) % WORD;
      last := prev % UNIT == 1;
    }

    /**
     * `wake_up_one(n)`: adds `n | (1 << 16)` to the word, one more working and n more
     * searching; for n below 2^16 the `|` is an addition.
     */
    method WakeUpOne(n: nat)
      requires Valid() && n < UNIT && NumSearching() + n < UNIT && NumWorking() + 1 < WORD / UNIT
      modifies this
      ensures Valid() && NumSearching() == old(NumSearching()) + n && NumWorking() == old(NumWorking()) + 1
    {
      Fields(NumWorking() + 1, NumSearching() + n);
      state := (state + (n + UNIT)) % WORD;
    }

    /**
     * `dec_num_working(is_searching)`: one fewer working, and one fewer searching when the
     * worker was searching; true iff it was the last searcher.
     */
    method DecNumWorking(isSearching: bool) returns (last: bool)
      requires Valid() && NumWorking() > 0 && (isSearching ==> NumSearching() > 0)
      modifies this
      ensures Valid() && NumWorking() == old(NumWorking()) - 1
      ensures NumSearching() == if isSearching then old(NumSearching()) - 1 else old(NumSearching())
      ensures last <==> isSearching && old(NumSearching()) == 1
    {
      var dec := UNIT;
      if isSearching {
        dec := dec + 1;
      }
      var prev := state;
      Fields(NumWorking() - 1, if isSearching then NumSearching() - 1 else NumSearching());
      state := (state + WORD - dec) % WORD;
      last := isSearching && prev % UNIT == 1;
    }
  }

  class Idle {
    const state: IdleState
    const numWorkers: nat
    var sleepers: seq<nat>

    /** Every worker is either counted as working or listed as sleeping, never both. */
    predicate Valid()
      reads this, state
    {
      state.Valid() && numWorkers < UNIT
      && state.NumWorking() + |sleepers| == numWorkers && state.NumSearching() <= numWorkers
    }

    /** `Idle(num_workers)`: all workers running, none asleep. */
    constructor(n: nat)
      requires n < UNIT
      ensures Valid() && fresh(state) && numWorkers == n && sleepers == []
      ensures state.NumWorking() == n && state.NumSearching() == 0
    {
      state := new IdleState(n);
      numWorkers := n;
      sleepers := [];
    }

    /**
     * `notify_should_wakeup()`: nobody is searching and somebody sleeps; by `Valid` the
     * second half means the sleeper list is not empty.
     */
    function NotifyShouldWakeup(): (b: bool)
      reads this, state
      requires Valid()
      ensures b <==> state.NumSearching() == 0 && state.NumWorking() < numWorkers
      ensures b ==> sleepers != []
    {
      state.NumSearching() == 0 && state.NumWorking() < numWorkers
    }

    /**
     * `worker_to_notify()`: when a wake-up is due, the oldest sleeper is woken as a searcher.
     * The re-check under the mutex gives the same answer when calls do not overlap.
     */
    method WorkerToNotify() returns (r: Option<nat>)
      requires Valid()
      modifies this, state
      ensures Valid()
      ensures r.None? <==> !old(NotifyShouldWakeup())
      ensures r.None? ==> sleepers == old(sleepers) && state.state == old(state.state)
      ensures r.Some? ==>
        r.value == old(sleepers)[0] && sleepers == old(sleepers)[1..]
        && state.NumWorking() == old(state.NumWorking()) + 1 && state.NumSearching() == 1
    {
      if !NotifyShouldWakeup() {
        return None;
      }
      state.WakeUpOne(1);
      r := Some(sleepers[0]);
      sleepers := sleepers[1..];
    }

    /**
     * `transition_worker_to_sleeping(worker, is_searching)`: the worker stops counting as
     * working (and searching) and joins the back of the sleeper list.
     */
    method TransitionWorkerToSleeping(worker: nat, isSearching: bool) returns (last: bool)
      requires Valid() && state.NumWorking() > 0 && (isSearching ==> state.NumSearching() > 0)
      modifies this, state
      ensures Valid() && sleepers == old(sleepers) + [worker]
      ensures state.NumWorking() == old(state.NumWorking()) - 1
      ensures state.NumSearching() == if isSearching then old(state.NumSearching()) - 1 else old(state.NumSearching())
      ensures last <==> isSearching && old(state.NumSearching()) == 1
    {
      last := state.DecNumWorking(isSearching);
      sleepers := sleepers + [worker];
    }

    /** `transition_worker_to_searching()`: refused while half the workers already search. */
    method TransitionWorkerToSearching() returns (ok: bool)
      requires Valid()
      modifies state
      ensures Valid() && state.NumWorking() == old(state.NumWorking())
      ensures ok <==> 2 * old(state.NumSearching()) < numWorkers
      ensures state.NumSearching() == if ok then old(state.NumSearching()) + 1 else old(state.NumSearching())
    {
      if 2 * state.NumSearching() >= numWorkers {
        return false;
      }
      state.IncNumSearching();
      return true;
    }

    /** `transition_worker_from_searching()`: true iff this was the last searcher. */
    method TransitionWorkerFromSearching() returns (last: bool)
      requires Valid() && state.NumSearching() > 0
      modifies state
      ensures Valid() && state.NumWorking() == old(state.NumWorking())
      ensures state.NumSearching() == old(state.NumSearching()) - 1
      ensures last <==> old(state.NumSearching()) == 1
    {
      last := state.DecNumSearching();
    }

    /** `remove(worker)`: a sleeping worker is taken off the list and counted as working again. */
    method Remove(worker: nat) returns (found: bool)
      requires Valid()
      modifies this, state
      ensures Valid() && (found <==> worker in old(sleepers))
      ensures sleepers == EraseFirst(old(sleepers), worker)
      ensures state.NumSearching() == old(state.NumSearching())
      ensures state.NumWorking() == if found then old(state.NumWorking()) + 1 else old(state.NumWorking())
    {
      var i := 0;
      while i < |sleepers|
        invariant 0 <= i <= |sleepers| && sleepers == old(sleepers) && worker !in sleepers[..i]
        invariant state.state == old(state.state)
      {
        if sleepers[i] == worker {
          EraseFirstAt(sleepers, worker, i);
          sleepers := sleepers[..i] + sleepers[i + 1..];
          state.WakeUpOne(0);
          return true;
        }
        assert sleepers[..i + 1] == sleepers[..i] + [sleepers[i]];
        i := i + 1;
      }
      assert sleepers[..i] == sleepers;
      return false;
    }

    /** `contains(worker)`. */
    function Contains(worker: nat): (b: bool)
      reads this
      ensures b <==> exists i :: 0 <= i < |sleepers| && sleepers[i] == worker
    {
      worker in sleepers
    }
  }

  /**
   * Two workers: one goes to sleep while searching (the last searcher), is picked by
   * `worker_to_notify`, and no second wake-up follows while it searches.
   */
  method SleepAndNotifyScenario() returns (last: bool, woken: Option<nat>, again: Option<nat>)
    ensures last && woken == Some(1) && again == None
  {
    var idle := new Idle(2);
    var ok := idle.TransitionWorkerToSearching();
    last := idle.TransitionWorkerToSleeping(1, true);
    woken := idle.WorkerToNotify();
    again := idle.WorkerToNotify();
  }
}
