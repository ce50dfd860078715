/**
 * `zedio::runtime::detail::Timer`: a timing wheel that starts at level 0 and grows a level
 * whenever an entry falls beyond its span, up to level `MAX_LEVEL`. The root is absent
 * (`std::monostate`) while no entry is pending. Time points are whole milliseconds of the
 * steady clock, read by the caller and passed in as `now`.
 */
module RuntimeTimer {
  import opened Wrappers
  import opened Errors
  import opened Seqs
  import opened TimerWheel
  import opened RuntimeWheel
  import opened TimerDeadlines

  /** `MAX_LEVEL` of the runtime configuration, which is not part of this model: 6. */
  const MAX_LEVEL: nat := 6

  /** `MAX_MS`: 64^(MAX_LEVEL + 1) ms, about 139 years, the span of the level-`MAX_LEVEL` wheel. */
  const MAX_MS: nat := MaxMs(MAX_LEVEL)

  /** 2^64: `uint64_t` arithmetic is modulo this. */
  const U64: nat := 0x1_0000_0000_0000_0000

  /**
   * `level_up_and_add_entry(wheel, entry, interval)`: while the interval lies beyond the
   * wheel's span the wheel is raised a level, then the entry is added. The result holds the
   * wheel's entries and the new one, at offset `interval`.
   */
  function LevelUpAndAddEntry(w: Wheel, id: nat, interval: nat): (r: Wheel)
    requires Valid(w) && Level(w) <= MAX_LEVEL && interval < MAX_MS
    ensures Valid(r) && Level(w) <= Level(r) <= MAX_LEVEL && r.bitmap != 0
    ensures Entries(r) == Insert(Entries(w), Timed(id, interval))
    decreases MAX_LEVEL - Level(w)
  {
    if interval >= MaxMs(Level(w)) then
      assert Level(w) != MAX_LEVEL;
      LevelUpAndAddEntry(LevelUp(w), id, interval)
    else
      OffsetWithin(interval, Level(w));
      AddEntryInserts(w, id, interval);
      AddEntry(w, id, interval)
  }

  class Timer {
    var start: int
    var numEntries: nat
    var root: Option<Wheel>

    /**
     * `num_entries_` counts the pending entries; the root is absent exactly when there are
     * none, and otherwise is a valid, non-empty wheel of level at most `MAX_LEVEL`.
     */
    predicate Valid()
      reads this
    {
      match root
      case None => numEntries == 0
      case Some(w) => TimerWheel.Valid(w) && Level(w) <= MAX_LEVEL && w.bitmap != 0 && numEntries == |Entries(w)|
    }

    /** The pending entries with their deadlines, in firing order. */
    function Pending(): seq<Timed>
      reads this
    {
      match root
      case None => []
      case Some(w) => Shift(Entries(w), start)
    }

    /** `Timer()`: no root wheel and no entry; `start_` reads the clock. */
    constructor(now: int)
      ensures Valid() && start == now && Pending() == [] && numEntries == 0
    {
      start := now;
      numEntries := 0;
      root := None;
    }

    /** The counter is the number of pending entries, and it is zero exactly when there is no root. */
    lemma CountsPending()
      requires Valid()
      ensures numEntries == |Pending()|
      ensures numEntries == 0 <==> root.None?
    {
      if root.Some? {
        EmptyIff(root.value);
      }
    }

    /**
     * `add_entry(expiration_time, handle)`: a deadline no later than now has passed, one at
     * least `MAX_MS` after `start_` is too far; any other is inserted in deadline order into
     * the root, created as a level-0 wheel when absent and raised as far as the deadline
     * needs. `start_` is a clock reading taken no later than `now`.
     */
    method AddEntry(expiry: int, id: nat, now: int) returns (r: Result<nat, ErrorCode>)
      requires Valid() && start <= now
      modifies this
      ensures Valid() && start == old(start)
      ensures expiry <= now ==> r == Err(PassedTime)
      ensures now < expiry && expiry >= old(start) + MAX_MS ==> r == Err(TooLongTime)
      ensures now < expiry < old(start) + MAX_MS ==> r == Ok(id)
      ensures r.Ok? ==> Pending() == Insert(old(Pending()), Timed(id, expiry)) && numEntries == old(numEntries) + 1
      ensures r.Err? ==> root == old(root) && numEntries == old(numEntries)
    {
      if expiry <= now {
        return Err(PassedTime);
      }
      if expiry >= start + MAX_MS {
        return Err(TooLongTime);
      }
      var interval: nat := expiry - start;
      var w := if root.None? then EmptyWheel(0) else root.value;
      var added := LevelUpAndAddEntry(w, id, interval);
      InsertLength(Entries(w), Timed(id, interval));
      InsertShift(Entries(w), Timed(id, interval), start);
      root := Some(added);
      numEntries := numEntries + 1;
      r := Ok(id);
    }

    /**
     * `remove_entry(entry)`: the entry, which must be pending, is taken out of the root and
     * the counter drops by one; the root goes when the last entry does.
     */
    method RemoveEntry(id: nat, expiry: int)
      requires Valid() && Timed(id, expiry) in Pending()
      modifies this
      ensures Valid() && start == old(start)
      ensures Pending() == EraseFirst(old(Pending()), Timed(id, expiry))
      ensures numEntries == old(numEntries) - 1
    {
      var w := root.value;
      PendingEntry(w, start, id, expiry);
      var interval: nat := expiry - start;
      var r := TimerWheel.RemoveEntry(w, id, interval);
      assert Entries(r) == EraseFirst(Entries(w), Timed(id, interval));
      numEntries := numEntries - 1;
      EmptyIff(r);
      if numEntries == 0 {
        root := None;
      } else {
        root := Some(r);
      }
    }

    /**
     * `next_expiration_time()`: none without a root; otherwise the first deadline less the
     * current time, as a 64-bit unsigned number (it wraps when the deadline is past).
     */
    function NextExpirationTime(now: int): (r: Option<nat>)
      reads this
      requires Valid()
      ensures r.None? <==> Pending() == []
      ensures r.Some? ==> r.value == (Pending()[0].at - now) % U64
      ensures r.Some? ==> forall k :: 0 <= k < |Pending()| ==> Pending()[0].at <= Pending()[k].at
    {
      match root
      case None => None
      case Some(w) =>
        NextExpirationEarliest(w);
        Some((NextExpiration(w) - (now - start)) % U64)
    }

    /**
     * `handle_expired_entries(...)`: with no entry, fires nothing and changes nothing.
     * Otherwise it fires in order exactly the pending entries due by `now`, takes their number
     * off the counter, and lets `change_state` drop or turn the root.
     */
    method HandleExpiredEntries(now: int) returns (fired: seq<nat>, count: nat)
      requires Valid() && (root.Some? ==> start <= now)
      modifies this
      ensures Valid()
      ensures fired == Ids(old(Pending())[..CountDue(old(Pending()), now)]) && count == |fired|
      ensures Pending() == old(Pending())[CountDue(old(Pending()), now)..]
      ensures numEntries == old(numEntries) - count
      ensures old(root).None? ==> root == old(root) && start == old(start)
    {
      if numEntries == 0 || root.None? {
        CountsPending();
        return [], 0;
      }
      var w := root.value;
      var interval: nat := now - start;
      var r;
      r, fired := HandleExpired(w, interval);
      count := |fired|;
      ghost var es := Entries(w);
      CountDueShift(es, start, now);
      ShiftSplit(es, start, CountDue(es, interval));
      IdsShift(es[..CountDue(es, interval)], start);
      numEntries := numEntries - count;
      RotatableAfterHandle(w, r, interval);
      ChangeState(r, interval);
    }

    /**
     * `change_state(wheel, interval)`: an emptied wheel is dropped; otherwise it turns by the
     * whole slots in `interval`, when there is at least one, and `start_` moves forward by
     * as many slots, so every deadline is kept.
     */
    method ChangeState(w: Wheel, interval: nat)
      requires TimerWheel.Valid(w) && Level(w) <= MAX_LEVEL && numEntries == |Entries(w)|
      requires forall j :: 0 <= j < interval / MsPerSlot(Level(w)) ==> !Occupied(w, j)
      requires w.bitmap != 0 ==> interval / MsPerSlot(Level(w)) < SLOTS
      modifies this
      ensures Valid() && Pending() == Shift(Entries(w), old(start))
      ensures w.bitmap == 0 ==> root.None? && start == old(start)
      ensures w.bitmap != 0 ==>
        root.Some? && Level(root.value) == Level(w) && start == old(start) + MsPerSlot(Level(w)) * (interval / MsPerSlot(Level(w)))
    {
      EmptyIff(w);
      if w.bitmap == 0 {
        root := None;
        return;
      }
      var ms := MsPerSlot(Level(w));
      WholeSlots(interval, ms);
      var n: nat := interval / ms;
      var moved := ms * n;
      var r := w;
      if n > 0 {
        r := RotateAny(w, n);
        assert n * ms == moved;
      } else {
        assert n == 0 && moved == ms * 0;
        ShiftZero(Entries(w));
      }
      RotateKeepsDeadlines(w, r, start, moved);
      ghost var keep := Shift(Entries(r), start + moved);
      root := Some(r);
      start := start + moved;
      assert Pending() == keep;
    }
  }
}
