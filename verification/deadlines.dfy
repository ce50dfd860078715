/**
 * From wheel offsets to deadlines: a timer keeps the time point `start_` its wheel counts
 * from, so an entry at offset `at` falls due at `start_ + at`. These facts carry the wheel's
 * properties over to the deadlines both timers promise.
 */
module TimerDeadlines {
  import opened TimerWheel
  import opened Seqs

  /** Moving every offset by `d` keeps the count of entries due by `t - d`, now due by `t`. */
  lemma {:induction false} CountDueShift(s: seq<Timed>, d: int, t: int)
    ensures CountDue(Shift(s, d), t) == CountDue(s, t - d)
  {
    if s != [] {
      assert Shift(s, d)[1..] == Shift(s[1..], d);
      CountDueShift(s[1..], d, t);
    }
  }

  /** Cutting a list and moving its offsets can be done in either order. */
  lemma ShiftSplit(s: seq<Timed>, d: int, k: nat)
    requires k <= |s|
    ensures Shift(s, d)[..k] == Shift(s[..k], d)
    ensures Shift(s, d)[k..] == Shift(s[k..], d)
  {
  }

  /** An entry is in the moved list exactly when it is in the list at its own offset less `d`. */
  lemma InShift(s: seq<Timed>, d: int, id: nat, at: int)
    ensures Timed(id, at) in Shift(s, d) <==> Timed(id, at - d) in s
  {
    if Timed(id, at) in Shift(s, d) {
      var k :| 0 <= k < |s| && Shift(s, d)[k] == Timed(id, at);
      assert s[k] == Timed(id, at - d);
    }
    if Timed(id, at - d) in s {
      var k :| 0 <= k < |s| && s[k] == Timed(id, at - d);
      assert Shift(s, d)[k] == Timed(id, at);
    }
  }

  /** Within a wheel's span the digits of an interval spell the interval itself. */
  lemma OffsetWithin(interval: nat, level: nat)
    requires interval < MaxMs(level)
    ensures Offset(interval, level) == interval
  {
    OffsetIsMod(interval, level);
    SmallMod(interval, MaxMs(level));
  }

  lemma SmallMod(x: nat, m: nat)
    requires x < m
    ensures x % m == x
  {
  }

  /** The whole slots in `interval` ms: at most `interval` ms, and fewer than 64 within the span. */
  lemma WholeSlots(interval: nat, ms: nat)
    requires ms > 0
    ensures 0 <= interval / ms && (interval / ms) * ms <= interval
    ensures interval < SLOTS * ms ==> interval / ms < SLOTS
  {
    if interval < SLOTS * ms && interval / ms >= SLOTS {
      MulMono(SLOTS, interval / ms, ms);
      assert false;
    }
  }

  /**
   * After firing everything due within `interval` ms, the whole slots in `interval` are empty
   * and the wheel can rotate by their number.
   */
  lemma RotatableAfterHandle(w: Wheel, r: Wheel, interval: nat)
    requires Valid(w) && Valid(r) && Level(r) == Level(w)
    requires Entries(r) == Entries(w)[CountDue(Entries(w), interval)..]
    ensures interval / MsPerSlot(Level(w)) * MsPerSlot(Level(w)) <= interval
    ensures forall j :: 0 <= j < interval / MsPerSlot(Level(w)) ==> !Occupied(r, j)
    ensures r.bitmap != 0 ==> interval / MsPerSlot(Level(w)) < SLOTS
  {
    var ms := MsPerSlot(Level(w));
    var n := interval / ms;
    CountDueStops(Entries(w), interval);
    WholeSlots(interval, ms);
    NoneDueBelow(r, interval, n);
    if r.bitmap != 0 {
      EmptyIff(r);
      EntriesFacts(r);
      assert interval < Entries(r)[0].at < SLOTS * ms;
    }
  }

  /**
   * Turning a wheel whose entries fall `moved` ms earlier, while the start moves forward by
   * `moved` ms, keeps every deadline, and the wheel is empty after exactly when before.
   */
  lemma RotateKeepsDeadlines(w: Wheel, r: Wheel, start: int, moved: int)
    requires Valid(w) && Valid(r) && Shift(Entries(r), moved) == Entries(w)
    ensures Shift(Entries(r), start + moved) == Shift(Entries(w), start)
    ensures |Entries(r)| == |Entries(w)| && (r.bitmap == 0 <==> w.bitmap == 0)
  {
    ShiftShift(Entries(r), moved, start);
    assert moved + start == start + moved;
    assert |Shift(Entries(r), moved)| == |Entries(r)|;
    EmptyIff(w);
    EmptyIff(r);
  }

  /**
   * A pending deadline lies within the wheel's span from `start`, the wheel holds the entry
   * at the interval from `start`, and erasing it there erases the deadline.
   */
  lemma PendingEntry(w: Wheel, start: int, id: nat, expiry: int)
    requires Valid(w) && Timed(id, expiry) in Shift(Entries(w), start)
    ensures 0 <= expiry - start < MaxMs(Level(w)) && Offset(expiry - start, Level(w)) == expiry - start
    ensures Timed(id, expiry - start) in Entries(w)
    ensures Shift(EraseFirst(Entries(w), Timed(id, expiry - start)), start)
      == EraseFirst(Shift(Entries(w), start), Timed(id, expiry))
  {
    var e := Timed(id, expiry - start);
    InShift(Entries(w), start, id, expiry);
    EntryInterval(w, e);
    ShiftErase(Entries(w), e, start);
    assert Timed(e.id, e.at + start) == Timed(id, expiry);
  }

  /** An entry of a wheel sits at an interval within the span, which its digits spell out. */
  lemma EntryInterval(w: Wheel, e: Timed)
    requires Valid(w) && e in Entries(w)
    ensures 0 <= e.at < MaxMs(Level(w)) && Offset(e.at, Level(w)) == e.at
  {
    EntriesFacts(w);
    MemberWithin(Entries(w), 0, MaxMs(Level(w)), e);
    OffsetWithin(e.at, Level(w));
  }

  /** An entry of a list whose offsets lie in [lo, hi) has its offset there. */
  lemma MemberWithin(s: seq<Timed>, lo: int, hi: int, e: Timed)
    requires Within(s, lo, hi) && e in s
    ensures lo <= e.at < hi
  {
  }

  /** Inserting adds exactly one entry. */
  lemma {:induction false} InsertLength(s: seq<Timed>, e: Timed)
    ensures |Insert(s, e)| == |s| + 1
  {
    if s != [] && e.at > s[0].at {
      InsertLength(s[1..], e);
    }
  }
}
