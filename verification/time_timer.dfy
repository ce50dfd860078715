/**
 * `zedio::time::detail::Timer`: a fixed six-level timing wheel (`Wheel<MS_PER_SLOT>`, the
 * level-5 wheel) counting from the time point `start_`. Time points are whole milliseconds of
 * the steady clock; the clock is read by the caller and passed in as `now`.
 */
module TimeTimer {
  import opened Wrappers
  import opened Errors
  import opened TimerWheel
  import opened TimerDeadlines
  import opened Seqs

  /** `MAX_LEVEL`: the wheel has six levels, 0 to 5. */
  const MAX_LEVEL: nat := 6

  /** The level of `Wheel<MS_PER_SLOT>`, the timer's wheel. */
  const TOP: nat := MAX_LEVEL - 1

  /** `MS_PER_SLOT`: 64^5 ms, about 12 days. */
  const MS_PER_SLOT: nat := 0x4000_0000

  /** `MAX_MS`: 64^6 ms, about 2 years. */
  const MAX_MS: nat := 0x10_0000_0000

  /** The timer's constants are those of its wheel: its slot length and its span. */
  lemma Constants()
    ensures MS_PER_SLOT == MsPerSlot(TOP) && MAX_MS == MaxMs(TOP)
  {
    assert Pow64(1) == 64;
    assert Pow64(2) == 64 * 64;
    assert Pow64(3) == 64 * 64 * 64;
    assert Pow64(4) == 64 * 64 * 64 * 64;
  }

  class Timer {
    var start: int
    var lastHandleTime: int
    var wheel: Wheel

    /** The wheel is the level-5 wheel, and the start never passes the last handling time. */
    predicate Valid()
      reads this
    {
      TimerWheel.Valid(wheel) && Level(wheel) == TOP && start <= lastHandleTime
    }

    /** The pending entries with their deadlines, in firing order. */
    function Pending(): seq<Timed>
      reads this
    {
      Shift(Entries(wheel), start)
    }

    /** `Timer()`: both time points read the clock; the wheel is empty. */
    constructor(now: int)
      ensures Valid() && start == now && lastHandleTime == now && Pending() == []
    {
      start := now;
      lastHandleTime := now;
      wheel := EmptyWheel(TOP);
    }

    /**
     * `add_entry(expiration_time, handle)`: a deadline no later than the last handling time
     * has passed, one at least `MAX_MS` after `start_` is too far; any other is inserted in
     * deadline order, ahead of the entries due at the same ms.
     */
    method AddEntry(expiry: int, id: nat) returns (r: Result<nat, ErrorCode>)
      requires Valid()
      modifies this
      ensures Valid() && start == old(start) && lastHandleTime == old(lastHandleTime)
      ensures expiry <= old(lastHandleTime) ==> r == Err(PassedTime)
      ensures old(lastHandleTime) < expiry && expiry >= old(start) + MAX_MS ==> r == Err(TooLongTime)
      ensures old(lastHandleTime) < expiry < old(start) + MAX_MS ==> r == Ok(id)
      ensures r.Ok? ==> Pending() == Insert(old(Pending()), Timed(id, expiry))
      ensures r.Err? ==> wheel == old(wheel)
    {
      if expiry <= lastHandleTime {
        return Err(PassedTime);
      }
      if expiry >= start + MAX_MS {
        return Err(TooLongTime);
      }
      var interval: nat := expiry - start;
      Constants();
      OffsetWithin(interval, TOP);
      AddEntryInserts(wheel, id, interval);
      InsertShift(Entries(wheel), Timed(id, interval), start);
      wheel := TimerWheel.AddEntry(wheel, id, interval);
      r := Ok(id);
    }

    /** `remove_entry(entry)`: the entry, which must be pending, is taken out; nothing else changes. */
    method RemoveEntry(id: nat, expiry: int)
      requires Valid() && Timed(id, expiry) in Pending()
      modifies this
      ensures Valid() && start == old(start) && lastHandleTime == old(lastHandleTime)
      ensures Pending() == EraseFirst(old(Pending()), Timed(id, expiry))
    {
      PendingEntry(wheel, start, id, expiry);
      var interval: nat := expiry - start;
      var r := TimerWheel.RemoveEntry(wheel, id, interval);
      assert Entries(r) == EraseFirst(Entries(wheel), Timed(id, interval));
      wheel := r;
    }

    /**
     * `next_expiration_time()`: none when nothing is pending; otherwise the first deadline
     * less the current time, as a 64-bit unsigned number (it wraps when the deadline is past).
     */
    function NextExpirationTime(now: int): (r: Option<nat>)
      reads this
      requires Valid()
      ensures r.None? <==> Pending() == []
      ensures r.Some? ==> r.value == (Pending()[0].at - now) % U64
      ensures r.Some? ==> forall k :: 0 <= k < |Pending()| ==> Pending()[0].at <= Pending()[k].at
    {
      EmptyIff(wheel);
      if wheel.bitmap == 0 then None
      else
        NextExpirationEarliest(wheel);
        Some((NextExpiration(wheel) - (now - start)) % U64)
    }

    /**
     * `handle_expired_entries(...)`: records `now` as the last handling time, fires in order
     * exactly the pending entries due by `now`, then rotates the wheel by the whole slots that
     * have passed and moves `start_` forward by as many slots, so every deadline is kept.
     */
    method HandleExpiredEntries(now: int) returns (fired: seq<nat>, count: nat)
      requires Valid() && start <= now < start + MAX_MS
      modifies this
      ensures Valid() && lastHandleTime == now
      ensures fired == Ids(old(Pending())[..CountDue(old(Pending()), now)]) && count == |fired|
      ensures Pending() == old(Pending())[CountDue(old(Pending()), now)..]
      ensures start == old(start) + MS_PER_SLOT * ((now - old(start)) / MS_PER_SLOT)
    {
      lastHandleTime := now;
      var interval: nat := now - start;
      ghost var es := Entries(wheel);
      var r;
      r, fired := HandleExpired(wheel, interval);
      count := |fired|;
      CountDueShift(es, start, now);
      ShiftSplit(es, start, CountDue(es, interval));
      IdsShift(es[..CountDue(es, interval)], start);
      Constants();
      RotatableAfterHandle(wheel, r, interval);
      wheel := r;
      RotateIfNeeded(interval);
    }

    /**
     * `rotate_if_needed(interval)`: the wheel turns by `n = interval / MS_PER_SLOT` slots when
     * `n > 0`, and `start_` moves forward by `n` slots.
     */
    method RotateIfNeeded(interval: nat)
      requires TimerWheel.Valid(wheel) && Level(wheel) == TOP && interval < MAX_MS
      requires forall j :: 0 <= j < interval / MS_PER_SLOT ==> !Occupied(wheel, j)
      modifies this
      ensures TimerWheel.Valid(wheel) && Level(wheel) == TOP && lastHandleTime == old(lastHandleTime)
      ensures Pending() == old(Pending())
      ensures start == old(start) + MS_PER_SLOT * (interval / MS_PER_SLOT)
    {
      Constants();
      WholeSlots(interval, MS_PER_SLOT);
      var n: nat := interval / MS_PER_SLOT;
      var moved := MS_PER_SLOT * n;
      var r := wheel;
      if n > 0 {
        r := Rotate(wheel, n);
        assert n * MS_PER_SLOT == moved;
      } else {
        assert n == 0 && moved == MS_PER_SLOT * 0;
        ShiftZero(Entries(wheel));
      }
      RotateKeepsDeadlines(wheel, r, start, moved);
      ghost var keep := Shift(Entries(r), start + moved);
      wheel := r;
      start := start + moved;
      assert Pending() == keep;
    }
  }

  /** 2^64: `uint64_t` arithmetic is modulo this. */
  const U64: nat := 0x1_0000_0000_0000_0000
}
