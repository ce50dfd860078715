/**
 * What `zedio::runtime::detail::Wheel` adds to the slot logic it shares with the time wheel:
 * growing the tree by one level (`level_up`), shrinking it (`can_level_down`, `level_down`),
 * and the level-0 `rotate`.
 */
module RuntimeWheel {
  import opened Wrappers
  import opened Bits
  import opened TimerWheel

  /** Bit `j` of the word 1 is set exactly for `j = 0`. */
  lemma OneBits(j: nat)
    ensures Bit(1, j) <==> j == 0
  {
    if j > 0 {
      ZeroHasNoBit(j - 1);
    }
  }

  /** A word is 1 exactly when bit 0 is its only set bit. */
  lemma {:induction false} OnlyLowBit(b: nat)
    requires Word(b)
    ensures b == 1 ==> Bit(b, 0) && forall j :: 0 < j < SLOTS ==> !Bit(b, j)
    ensures Bit(b, 0) && (forall j :: 0 < j < SLOTS ==> !Bit(b, j)) ==> b == 1
  {
    if b == 1 {
      forall j | 0 < j < SLOTS ensures !Bit(b, j) {
        OneBits(j);
      }
    }
    if Bit(b, 0) && forall j :: 0 < j < SLOTS ==> !Bit(b, j) {
      var h := b / 2;
      assert Pow2(64) == 2 * Pow2(63);
      assert h < Pow2(63);
      forall j: nat ensures !Bit(h, j) {
        if j < 63 {
          assert Bit(b, j + 1) == Bit(h, j);
        } else {
          HighBitClear(h, 63, j);
        }
      }
      ZeroIffNoBit(h, 63);
      assert h == 0;
    }
  }

  /** The 64 slots of a node that owns `w` in slot 0 and nothing else. */
  function FirstOnly(w: Wheel): (cs: seq<Option<Wheel>>)
    ensures |cs| == SLOTS && cs[0] == Some(w)
    ensures forall j :: 0 < j < SLOTS ==> cs[j].None?
  {
    [Some(w)] + seq(SLOTS - 1, _ => None)
  }

  /**
   * `level_up(me)`, as written: the new parent's constructor sets bitmap 1 and puts the wheel
   * in slot 0 whether or not that wheel holds anything. The parent holds the same entries at
   * the same offsets, and it keeps the wheel's invariant only when the wheel was not empty.
   */
  function LevelUpAsWritten(w: Wheel): (r: Wheel)
    requires Valid(w)
    ensures Level(r) == Level(w) + 1 && r.bitmap != 0
    ensures Entries(r) == Entries(w)
    ensures Valid(r) <==> w.bitmap != 0
  {
    var r := Node(Level(w) + 1, 1, FirstOnly(w));
    NodeSlot(r, 0, w);
    ShiftZero(Entries(w));
    RangeEmpty(r, 1, SLOTS);
    assert Entries(r) == InSlot(r, 0) + Range(r, 1, SLOTS);
    forall j | 0 <= j < SLOTS ensures Bit(1, j) <==> r.children[j].Some? {
      OneBits(j);
    }
    r
  }

  /**
   * Raising an empty `Wheel<0>` gives a `Wheel<1>` whose `empty()` is false though it holds no
   * entry, so `next_expiration_time` descends into an empty leaf.
   */
  lemma LevelUpEmptyLeaf()
    ensures var u := LevelUpAsWritten(EmptyWheel(0));
      u.bitmap != 0 && Entries(u) == [] && !Valid(u)
  {
  }

  /**
   * `level_up(me)`, corrected: an empty wheel becomes an empty wheel one level up, any other
   * wheel becomes slot 0 of a new parent. Either way the parent is valid and holds the same
   * entries at the same offsets, and it is empty exactly when the wheel was.
   */
  function LevelUp(w: Wheel): (r: Wheel)
    requires Valid(w)
    ensures Valid(r) && Level(r) == Level(w) + 1
    ensures Entries(r) == Entries(w)
    ensures r.bitmap == 0 <==> w.bitmap == 0
  {
    if w.bitmap == 0 then
      EmptyIff(w);
      EmptyWheel(Level(w) + 1)
    else
      LevelUpAsWritten(w)
  }

  /** `can_level_down()`: the bitmap is 1, that is slot 0 is the only occupied slot. */
  function CanLevelDown(w: Wheel): (b: bool)
    requires Valid(w) && w.Node?
    ensures b <==> Occupied(w, 0) && forall j :: 0 < j < SLOTS ==> !Occupied(w, j)
  {
    OnlyLowBit(w.bitmap);
    assert Occupied(w, 0) <==> Bit(w.bitmap, 0);
    assert forall j :: 0 < j < SLOTS ==> (Occupied(w, j) <==> Bit(w.bitmap, j));
    w.bitmap == 1
  }

  /**
   * `level_down()`: the child in slot 0. When it is the only occupied slot the child holds
   * every entry of the wheel, at the same offsets.
   */
  function LevelDown(w: Wheel): (c: Wheel)
    requires Valid(w) && w.Node? && CanLevelDown(w)
    ensures Valid(c) && Level(c) == w.level - 1 && c.bitmap != 0
    ensures Entries(c) == Entries(w)
  {
    var c := w.children[0].value;
    NodeSlot(w, 0, c);
    ShiftZero(Entries(c));
    RangeEmpty(w, 1, SLOTS);
    assert Entries(w) == InSlot(w, 0) + Range(w, 1, SLOTS);
    c
  }

  /** Lowering a wheel that can be lowered and raising it again gives the same wheel back. */
  lemma LevelDownThenUp(w: Wheel)
    requires Valid(w) && w.Node? && CanLevelDown(w)
    ensures LevelUp(LevelDown(w)) == w
  {
    var c := LevelDown(w);
    forall j | 0 <= j < SLOTS ensures w.children[j] == FirstOnly(c)[j] {
      if j > 0 {
        assert !Occupied(w, j);
      }
    }
    assert w.children == FirstOnly(c);
  }

  /** Raising a non-empty wheel gives a wheel that can be lowered, back to the same wheel. */
  lemma LevelUpThenDown(w: Wheel)
    requires Valid(w) && w.bitmap != 0
    ensures LevelUp(w).Node? && CanLevelDown(LevelUp(w)) && LevelDown(LevelUp(w)) == w
  {
  }

  /** The leaf `rotate` builds: slot j holds the list slot j + start held, the top slots none. */
  predicate LeafRotated(w: Wheel, r: Wheel, start: nat)
    requires w.Leaf? && r.Leaf? && |w.lists| == SLOTS && |r.lists| == SLOTS && start <= SLOTS
  {
    (forall j :: 0 <= j < SLOTS - start ==> r.lists[j] == w.lists[j + start])
    && (forall j :: SLOTS - start <= j < SLOTS ==> r.lists[j] == [])
  }

  lemma ShiftStamp(l: seq<nat>, at: int, d: int)
    ensures Shift(Stamp(l, at), d) == Stamp(l, at + d)
  {
  }

  /** Slots `lo` to `hi - 1` of the rotated leaf, `start` ms later, are slots `lo + start` on of the old. */
  lemma {:induction false} RangeLeafRotated(w: Wheel, r: Wheel, start: nat, lo: nat, hi: nat)
    requires w.Leaf? && r.Leaf? && |w.lists| == SLOTS && |r.lists| == SLOTS
    requires start <= SLOTS && LeafRotated(w, r, start) && lo <= hi <= SLOTS - start
    ensures Shift(Range(r, lo, hi), start) == Range(w, lo + start, hi + start)
    decreases hi - lo
  {
    if lo < hi {
      RangeLeafRotated(w, r, start, lo + 1, hi);
      ShiftConcat(InSlot(r, lo), Range(r, lo + 1, hi), start);
      ShiftStamp(r.lists[lo], lo, start);
    }
  }

  lemma LeafRotatedValid(w: Wheel, r: Wheel, start: nat)
    requires Valid(w) && w.Leaf? && 0 < start < SLOTS
    requires r.Leaf? && r.bitmap == ShiftDown(w.bitmap, start) && |r.lists| == SLOTS
    requires LeafRotated(w, r, start)
    ensures Valid(r)
  {
    forall j | 0 <= j < SLOTS
      ensures Bit(r.bitmap, j) <==> r.lists[j] != []
    {
      if j + start >= SLOTS {
        HighBitClear(w.bitmap, 64, j + start);
      }
    }
  }

  /** The rotated leaf is valid and holds the same entries, `start` ms earlier. */
  lemma LeafRotatedEntries(w: Wheel, r: Wheel, start: nat)
    requires Valid(w) && w.Leaf? && 0 < start < SLOTS
    requires forall j :: 0 <= j < start ==> w.lists[j] == []
    requires r.Leaf? && r.bitmap == ShiftDown(w.bitmap, start) && |r.lists| == SLOTS
    requires LeafRotated(w, r, start)
    ensures Valid(r)
    ensures Shift(Entries(r), start) == Entries(w)
  {
    LeafRotatedValid(w, r, start);
    RangeSplit(r, 0, SLOTS - start, SLOTS);
    RangeEmpty(r, SLOTS - start, SLOTS);
    assert Range(r, 0, SLOTS - start) + [] == Range(r, 0, SLOTS - start);
    RangeLeafRotated(w, r, start, 0, SLOTS - start);
    RangeSplit(w, 0, start, SLOTS);
    RangeEmpty(w, 0, start);
    assert [] + Range(w, start, SLOTS) == Range(w, start, SLOTS);
  }

  /**
   * `Wheel<0>::rotate(start)`: each list from slot `start` up moves down by `start` slots, into
   * a slot that must be empty, and the bitmap shifts right by `start`.
   */
  method RotateLeaf(w: Wheel, start: nat) returns (r: Wheel)
    requires Valid(w) && w.Leaf? && 0 < start < SLOTS
    requires forall j :: 0 <= j < start ==> !Occupied(w, j)
    ensures Valid(r) && r.Leaf?
    ensures Shift(Entries(r), start) == Entries(w)
  {
    var ls := w.lists;
    forall j | 0 <= j < start
      ensures ls[j] == []
    {
      assert !Occupied(w, j);
    }
    for i := start to SLOTS
      invariant |ls| == SLOTS
      invariant forall j :: 0 <= j < i - start ==> ls[j] == w.lists[j + start]
      invariant forall j :: i - start <= j < i ==> ls[j] == []
      invariant forall j :: i <= j < SLOTS ==> ls[j] == w.lists[j]
    {
      assert ls[i - start] == [];
      ls := ls[i - start := ls[i]][i := []];
    }
    r := Leaf(ShiftDown(w.bitmap, start), ls);
    LeafRotatedEntries(w, r, start);
  }

  /**
   * `rotate(start)` on a wheel of any level: the entries move `start` slots earlier and no
   * entry is lost.
   */
  method RotateAny(w: Wheel, start: nat) returns (r: Wheel)
    requires Valid(w) && 0 < start < SLOTS
    requires forall j :: 0 <= j < start ==> !Occupied(w, j)
    ensures Valid(r) && Level(r) == Level(w)
    ensures Shift(Entries(r), start * MsPerSlot(Level(w))) == Entries(w)
  {
    if w.Leaf? {
      r := RotateLeaf(w, start);
      assert start * MsPerSlot(0) == start;
    } else {
      r := Rotate(w, start);
    }
  }
}
