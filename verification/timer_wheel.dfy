/**
 * The hierarchical timing wheel of `zedio::time::detail::Wheel` (and the identical slot logic
 * of `zedio::runtime::detail::Wheel`). A wheel of level L has 64 slots of 64^L ms each and a
 * 64-bit bitmap of occupied slots; a slot of a level-0 wheel holds a list of entries (newest
 * first), a slot of a higher wheel owns a wheel of the level below.
 *
 * The tree of owned wheels is modelled as a value. Its meaning is `Entries`: every entry with
 * its offset in ms from the wheel's start, in the order the wheel fires them.
 */
module TimerWheel {
  import opened Wrappers
  import opened Bits
  import opened Seqs

  /** `SLOT_SIZE`. */
  const SLOTS: nat := 64

  function Pow64(n: nat): (r: nat)
    ensures r >= 1
  {
    if n == 0 then 1 else 64 * Pow64(n - 1)
  }

  /** `MS_PER_SLOT` of a level-L wheel. */
  function MsPerSlot(level: nat): nat
  {
    Pow64(level)
  }

  /** `MAX_MS` of a level-L wheel: the span of its 64 slots. */
  function MaxMs(level: nat): nat
  {
    SLOTS * MsPerSlot(level)
  }

  /**
   * `get_index(interval)`: `(interval & MASK) >> SHIFT` with `SHIFT = 6 * L`, that is base-64
   * digit L of the interval; at level 0 it is `interval & 63`.
   */
  function Index(interval: nat, level: nat): (i: nat)
    ensures i < SLOTS
  {
    interval / MsPerSlot(level) % SLOTS
  }

  /** An entry and the ms offset, from the wheel's start, at which it falls due. */
  datatype Timed = Timed(id: nat, at: int)

  /** The entries of one level-0 slot list, all due at the same offset. */
  function Stamp(ids: seq<nat>, at: int): seq<Timed>
  {
    seq(|ids|, k requires 0 <= k < |ids| => Timed(ids[k], at))
  }

  /** The same entries `d` ms later. */
  function Shift(s: seq<Timed>, d: int): seq<Timed>
  {
    seq(|s|, k requires 0 <= k < |s| => Timed(s[k].id, s[k].at + d))
  }

  /** The entry ids, in order. */
  function Ids(s: seq<Timed>): seq<nat>
  {
    seq(|s|, k requires 0 <= k < |s| => s[k].id)
  }

  predicate Sorted(s: seq<Timed>)
  {
    forall j, k :: 0 <= j < k < |s| ==> s[j].at <= s[k].at
  }

  predicate Within(s: seq<Timed>, lo: int, hi: int)
  {
    forall k :: 0 <= k < |s| ==> lo <= s[k].at < hi
  }

  datatype Wheel =
    | Leaf(bitmap: nat, lists: seq<seq<nat>>)
    | Node(level: nat, bitmap: nat, children: seq<Option<Wheel>>)

  function Level(w: Wheel): nat
  {
    if w.Leaf? then 0 else w.level
  }

  /** Slot `i` holds something: a non-empty list, or an owned child wheel. */
  predicate Occupied(w: Wheel, i: nat)
  {
    match w
    case Leaf(_, lists) => i < |lists| && lists[i] != []
    case Node(_, _, cs) => i < |cs| && cs[i].Some?
  }

  /**
   * The wheel's invariant: 64 slots, bit i of the bitmap set exactly when slot i is occupied,
   * and every owned child one level down, itself valid and not empty.
   */
  predicate Valid(w: Wheel)
    decreases w
  {
    Word(w.bitmap) &&
    match w
    case Leaf(b, lists) =>
      |lists| == SLOTS && forall i :: 0 <= i < SLOTS ==> (Bit(b, i) <==> lists[i] != [])
    case Node(level, b, cs) =>
      level >= 1 && |cs| == SLOTS &&
      forall i :: 0 <= i < SLOTS ==>
        (Bit(b, i) <==> cs[i].Some?) &&
        (cs[i].Some? ==> Valid(cs[i].value) && Level(cs[i].value) == level - 1 && cs[i].value.bitmap != 0)
  }

  /** The entries of slot `i`, with offsets from the wheel's start. */
  function InSlot(w: Wheel, i: nat): seq<Timed>
    decreases w, 0
  {
    match w
    case Leaf(_, lists) => if i < |lists| then Stamp(lists[i], i) else []
    case Node(level, _, cs) =>
      if i < |cs| && cs[i].Some? then Shift(Entries(cs[i].value), i * MsPerSlot(level)) else []
  }

  /** The entries of slots `lo` to `hi - 1`, slot by slot. */
  function Range(w: Wheel, lo: nat, hi: nat): seq<Timed>
    decreases w, 1, hi - lo
  {
    if lo >= hi then [] else InSlot(w, lo) + Range(w, lo + 1, hi)
  }

  /** Every entry of the wheel with its offset, in firing order. */
  function Entries(w: Wheel): seq<Timed>
    decreases w, 2
  {
    Range(w, 0, SLOTS)
  }

  /** `MAX_MS` of level L is `MS_PER_SLOT` of level L + 1. */
  lemma MaxMsIsNextSlot(level: nat)
    ensures MaxMs(level) == MsPerSlot(level + 1)
  {
  }

  lemma {:induction false} RangeSplit(w: Wheel, lo: nat, m: nat, hi: nat)
    requires lo <= m <= hi
    ensures Range(w, lo, hi) == Range(w, lo, m) + Range(w, m, hi)
    decreases m - lo
  {
    if lo < m {
      RangeSplit(w, lo + 1, m, hi);
    }
  }

  /** Slots holding the same entries make ranges holding the same entries. */
  lemma {:induction false} RangeFrame(w: Wheel, v: Wheel, lo: nat, hi: nat)
    requires forall j :: lo <= j < hi ==> InSlot(v, j) == InSlot(w, j)
    ensures Range(v, lo, hi) == Range(w, lo, hi)
    decreases hi - lo
  {
    if lo < hi {
      RangeFrame(w, v, lo + 1, hi);
    }
  }

  /** A run of unoccupied slots holds no entry. */
  lemma {:induction false} RangeEmpty(w: Wheel, lo: nat, hi: nat)
    requires forall j :: lo <= j < hi ==> !Occupied(w, j)
    ensures Range(w, lo, hi) == []
    decreases hi - lo
  {
    if lo < hi {
      assert !Occupied(w, lo);
      RangeEmpty(w, lo + 1, hi);
    }
  }

  lemma MulMono(a: nat, b: nat, m: nat)
    requires a <= b
    ensures a * m <= b * m
  {
    assert b * m == a * m + (b - a) * m;
  }

  lemma SortedConcat(a: seq<Timed>, b: seq<Timed>, lo: int, mid: int, hi: int)
    requires lo <= mid <= hi && Sorted(a) && Sorted(b) && Within(a, lo, mid) && Within(b, mid, hi)
    ensures Sorted(a + b) && Within(a + b, lo, hi)
  {
  }

  lemma ShiftFacts(s: seq<Timed>, d: int, lo: int, hi: int)
    requires Sorted(s) && Within(s, lo, hi)
    ensures Sorted(Shift(s, d)) && Within(Shift(s, d), lo + d, hi + d)
  {
  }

  /** A wheel's entries are in non-decreasing order of offset, all within its span. */
  lemma {:induction false} EntriesFacts(w: Wheel)
    requires Valid(w)
    ensures Sorted(Entries(w)) && Within(Entries(w), 0, MaxMs(Level(w)))
    decreases w, 2
  {
    RangeFacts(w, 0, SLOTS);
  }

  /** Slots `lo` to `hi - 1` hold entries in order, within those slots' span. */
  lemma {:induction false} RangeFacts(w: Wheel, lo: nat, hi: nat)
    requires Valid(w) && lo <= hi <= SLOTS
    ensures Sorted(Range(w, lo, hi))
    ensures Within(Range(w, lo, hi), lo * MsPerSlot(Level(w)), hi * MsPerSlot(Level(w)))
    decreases w, 1, hi - lo
  {
    if lo < hi {
      var ms := MsPerSlot(Level(w));
      SlotFacts(w, lo);
      RangeFacts(w, lo + 1, hi);
      var x, y, z := lo * ms, (lo + 1) * ms, hi * ms;
      assert y == x + ms;
      MulMono(lo + 1, hi, ms);
      SortedConcat(InSlot(w, lo), Range(w, lo + 1, hi), x, y, z);
    }
  }

  /** Slot `i` holds entries in order, due in its `MsPerSlot` span. */
  lemma {:induction false} SlotFacts(w: Wheel, i: nat)
    requires Valid(w) && i < SLOTS
    ensures Sorted(InSlot(w, i))
    ensures Within(InSlot(w, i), i * MsPerSlot(Level(w)), i * MsPerSlot(Level(w)) + MsPerSlot(Level(w)))
    decreases w, 0, 1
  {
    if w.Leaf? {
      StampFacts(w.lists[i], i);
      assert MsPerSlot(0) == 1;
    } else if w.children[i].Some? {
      ChildSlotFacts(w, i);
    } else {
      assert InSlot(w, i) == [];
    }
  }

  lemma StampFacts(l: seq<nat>, at: int)
    ensures Sorted(Stamp(l, at)) && Within(Stamp(l, at), at, at + 1)
  {
  }

  lemma {:induction false} ChildSlotFacts(w: Wheel, i: nat)
    requires Valid(w) && w.Node? && i < SLOTS && w.children[i].Some?
    ensures Sorted(InSlot(w, i))
    ensures Within(InSlot(w, i), i * MsPerSlot(w.level), i * MsPerSlot(w.level) + MsPerSlot(w.level))
    decreases w, 0, 0
  {
    var c := w.children[i].value;
    var ms := MsPerSlot(w.level);
    assert Valid(c) && Level(c) == w.level - 1;
    EntriesFacts(c);
    MaxMsIsNextSlot(Level(c));
    assert InSlot(w, i) == Shift(Entries(c), i * ms);
    ShiftFacts(Entries(c), i * ms, 0, ms);
  }

  /** An unoccupied slot holds no entry. */
  lemma EmptySlot(w: Wheel, i: nat)
    requires !Occupied(w, i)
    ensures InSlot(w, i) == []
  {
  }

  /** The lowest set bit names the first occupied slot, whose entries come first. */
  lemma {:induction false} LowestSlot(w: Wheel)
    requires Valid(w) && w.bitmap != 0
    ensures CountrZero(w.bitmap) < SLOTS && Occupied(w, CountrZero(w.bitmap))
    ensures InSlot(w, CountrZero(w.bitmap)) != [] && Range(w, 0, CountrZero(w.bitmap)) == []
    ensures Entries(w) == InSlot(w, CountrZero(w.bitmap)) + Range(w, CountrZero(w.bitmap) + 1, SLOTS)
    decreases w, 0, 1
  {
    var i := CountrZero(w.bitmap);
    assert i < SLOTS && Bit(w.bitmap, i);
    assert Occupied(w, i);
    forall j | 0 <= j < i ensures !Occupied(w, j) {
      assert !Bit(w.bitmap, j);
    }
    FirstOccupied(w, i);
    OccupiedHasEntries(w, i);
  }

  /** When no slot before `i` is occupied, the entries start with those of slot `i`. */
  lemma FirstOccupied(w: Wheel, i: nat)
    requires i < SLOTS && forall j :: 0 <= j < i ==> !Occupied(w, j)
    ensures Range(w, 0, i) == [] && Entries(w) == InSlot(w, i) + Range(w, i + 1, SLOTS)
  {
    RangeEmpty(w, 0, i);
    RangeSplit(w, 0, i, SLOTS);
    assert Range(w, 0, i) + Range(w, i, SLOTS) == Range(w, i, SLOTS);
  }

  /** An occupied slot of a valid wheel holds at least one entry. */
  lemma {:induction false} OccupiedHasEntries(w: Wheel, i: nat)
    requires Valid(w) && i < SLOTS && Occupied(w, i)
    ensures InSlot(w, i) != []
    decreases w, 0, 0
  {
    if w.Node? {
      var c := w.children[i].value;
      assert Valid(c) && c.bitmap != 0;
      EmptyIff(c);
      assert InSlot(w, i) == Shift(Entries(c), i * MsPerSlot(w.level));
    }
  }

  /** `empty()`: the bitmap is zero exactly when the wheel holds no entry. */
  lemma {:induction false} EmptyIff(w: Wheel)
    requires Valid(w)
    ensures w.bitmap == 0 <==> Entries(w) == []
    decreases w, 1
  {
    if w.bitmap == 0 {
      forall j | 0 <= j < SLOTS ensures !Occupied(w, j) {
        ZeroHasNoBit(j);
      }
      RangeEmpty(w, 0, SLOTS);
    } else {
      LowestSlot(w);
    }
  }

  /** A wheel of the given level with no slot occupied. */
  function EmptyWheel(level: nat): (w: Wheel)
    ensures Valid(w) && Level(w) == level && w.bitmap == 0 && Entries(w) == []
  {
    var w := if level == 0 then Leaf(0, seq(SLOTS, _ => [])) else Node(level, 0, seq(SLOTS, _ => None));
    forall i | 0 <= i < SLOTS ensures !Bit(0, i) {
      ZeroHasNoBit(i);
    }
    EmptyIff(w);
    w
  }

  /** `s` with `e` placed just before the first entry due no earlier than it. */
  function Insert(s: seq<Timed>, e: Timed): seq<Timed>
  {
    if s == [] || e.at <= s[0].at then [e] + s else [s[0]] + Insert(s[1..], e)
  }

  /** Inserting adds exactly the one entry. */
  lemma {:induction false} InsertMultiset(s: seq<Timed>, e: Timed)
    ensures multiset(Insert(s, e)) == multiset(s) + multiset{e}
  {
    if s == [] || e.at <= s[0].at {
      assert Insert(s, e) == [e] + s;
    } else {
      var t := s[1..];
      InsertMultiset(t, e);
      assert s == [s[0]] + t;
      assert Insert(s, e) == [s[0]] + Insert(t, e);
      assert multiset(Insert(s, e)) == multiset{s[0]} + multiset(Insert(t, e));
    }
  }

  /** Inserting into an ordered list keeps it ordered. */
  lemma {:induction false} InsertSorted(s: seq<Timed>, e: Timed)
    requires Sorted(s)
    ensures Sorted(Insert(s, e))
  {
    if s != [] && s[0].at < e.at {
      InsertSorted(s[1..], e);
      InsertMultiset(s[1..], e);
      var t := Insert(s[1..], e);
      forall k | 0 <= k < |t| ensures s[0].at <= t[k].at {
        assert t[k] in multiset(s[1..]) + multiset{e};
      }
    }
  }

  lemma {:induction false} InsertAfter(a: seq<Timed>, t: seq<Timed>, e: Timed)
    requires forall k :: 0 <= k < |a| ==> a[k].at < e.at
    ensures Insert(a + t, e) == a + Insert(t, e)
  {
    if a != [] {
      assert (a + t)[0] == a[0] && (a + t)[1..] == a[1..] + t;
      InsertAfter(a[1..], t, e);
    } else {
      assert a + t == t;
    }
  }

  lemma {:induction false} InsertBefore(s: seq<Timed>, b: seq<Timed>, e: Timed)
    requires b == [] || e.at <= b[0].at
    ensures Insert(s + b, e) == Insert(s, e) + b
  {
    if s == [] {
      assert s + b == b;
    } else {
      assert (s + b)[0] == s[0] && (s + b)[1..] == s[1..] + b;
      if s[0].at < e.at {
        InsertBefore(s[1..], b, e);
      }
    }
  }

  lemma {:induction false} InsertShift(s: seq<Timed>, e: Timed, d: int)
    ensures Shift(Insert(s, e), d) == Insert(Shift(s, d), Timed(e.id, e.at + d))
  {
    if s != [] && s[0].at < e.at {
      InsertShift(s[1..], e, d);
      assert Shift(s, d)[1..] == Shift(s[1..], d);
    }
  }

  /** A new entry goes to the head of its level-0 list, before entries due with it. */
  lemma StampInsert(ids: seq<nat>, id: nat, at: int)
    ensures Insert(Stamp(ids, at), Timed(id, at)) == Stamp([id] + ids, at)
  {
  }

  lemma ModUnique(x: nat, a: nat, b: nat, m: nat)
    requires 0 <= b < m && x == a * m + b
    ensures x % m == b && x / m == a
  {
    var q, r := x / m, x % m;
    assert x == q * m + r;
    SlotEnd(q, m);
    SlotEnd(a, m);
    if a > q {
      MulMono(q + 1, a, m);
      assert false;
    } else if a < q {
      MulMono(a + 1, q, m);
      assert false;
    }
  }

  /** Base-64 digits: the offset within a level-L span is digit L times 64^L plus the rest. */
  lemma Digit(x: nat, ms: nat)
    requires ms >= 1
    ensures x % (SLOTS * ms) == (x / ms % SLOTS) * ms + x % ms
  {
    var q, r := x / ms, x % ms;
    var q1, q0 := q / SLOTS, q % SLOTS;
    assert x == q * ms + r;
    assert q == q1 * SLOTS + q0;
    assert q0 * ms + r < SLOTS * ms by {
      MulMono(q0, SLOTS - 1, ms);
    }
    assert x == q1 * (SLOTS * ms) + (q0 * ms + r);
    ModUnique(x, q1, q0 * ms + r, SLOTS * ms);
  }

  /** The entries before slot `i`, those of slot `i`, and those after it. */
  lemma SlotSplit(w: Wheel, i: nat)
    requires i < SLOTS
    ensures Entries(w) == Range(w, 0, i) + InSlot(w, i) + Range(w, i + 1, SLOTS)
  {
    RangeSplit(w, 0, i, SLOTS);
    assert Range(w, i, SLOTS) == InSlot(w, i) + Range(w, i + 1, SLOTS);
  }

  /** Entries of a wheel whose slots other than `i` are unchanged. */
  lemma SlotUpdate(w: Wheel, v: Wheel, i: nat)
    requires i < SLOTS
    requires forall j :: 0 <= j < SLOTS && j != i ==> InSlot(v, j) == InSlot(w, j)
    ensures Entries(w) == Range(w, 0, i) + InSlot(w, i) + Range(w, i + 1, SLOTS)
    ensures Entries(v) == Range(w, 0, i) + InSlot(v, i) + Range(w, i + 1, SLOTS)
  {
    SlotSplit(w, i);
    SlotSplit(v, i);
    RangeFrame(w, v, 0, i);
    RangeFrame(w, v, i + 1, SLOTS);
  }

  /** Filling level-0 slot `i` and setting its bit keeps the invariant. */
  lemma LeafSet(w: Wheel, i: nat, l: seq<nat>)
    requires Valid(w) && w.Leaf? && i < SLOTS && l != []
    ensures Valid(Leaf(SetBit(w.bitmap, i), w.lists[i := l]))
    ensures SetBit(w.bitmap, i) != 0
  {
    ZeroHasNoBit(i);
  }

  /** Emptying level-0 slot `i` and clearing its bit keeps the invariant. */
  lemma LeafClear(w: Wheel, i: nat)
    requires Valid(w) && w.Leaf? && i < SLOTS
    ensures Valid(Leaf(ClearBit(w.bitmap, i), w.lists[i := []]))
  {
  }

  /** Giving slot `i` a non-empty child one level down and setting its bit keeps the invariant. */
  lemma NodeSet(w: Wheel, i: nat, c: Wheel)
    requires Valid(w) && w.Node? && i < SLOTS
    requires Valid(c) && Level(c) == w.level - 1 && c.bitmap != 0
    ensures Valid(Node(w.level, SetBit(w.bitmap, i), w.children[i := Some(c)]))
    ensures SetBit(w.bitmap, i) != 0
  {
    ZeroHasNoBit(i);
  }

  /** Dropping the child of slot `i` and clearing its bit keeps the invariant. */
  lemma NodeClear(w: Wheel, i: nat)
    requires Valid(w) && w.Node? && i < SLOTS
    ensures Valid(Node(w.level, ClearBit(w.bitmap, i), w.children[i := None]))
  {
  }

  /**
   * `add_entry(entry, interval)`: a level-0 wheel pushes the entry onto the front of slot
   * `interval & 63`; a higher wheel creates the child for the interval's digit if the slot is
   * empty, sets its bit, and passes the entry down with the same interval.
   */
  function AddEntry(w: Wheel, id: nat, interval: nat): (r: Wheel)
    requires Valid(w)
    ensures Valid(r) && Level(r) == Level(w) && r.bitmap != 0
    decreases Level(w)
  {
    var i := Index(interval, Level(w));
    match w
    case Leaf(b, lists) =>
      LeafSet(w, i, [id] + lists[i]);
      Leaf(SetBit(b, i), lists[i := [id] + lists[i]])
    case Node(level, b, cs) =>
      var c := AddEntry(ChildOrEmpty(w, i), id, interval);
      NodeSet(w, i, c);
      Node(level, SetBit(b, i), cs[i := Some(c)])
  }

  /** The child a node owns in slot `i`, or a new empty wheel one level down. */
  function ChildOrEmpty(w: Wheel, i: nat): (c: Wheel)
    requires Valid(w) && w.Node? && i < SLOTS
    ensures Valid(c) && Level(c) == w.level - 1
    ensures InSlot(w, i) == Shift(Entries(c), i * MsPerSlot(w.level))
  {
    if w.children[i].Some? then w.children[i].value else EmptyWheel(w.level - 1)
  }

  lemma SlotEnd(i: nat, ms: nat)
    ensures (i + 1) * ms == i * ms + ms
  {
  }

  /**
   * The offset within a level-L span at which an interval falls due, digit by digit: digit L
   * picks the slot, the digits below give the offset within the slot's child.
   */
  function Offset(interval: nat, level: nat): (r: nat)
    decreases level
  {
    if level == 0 then Index(interval, 0) else Index(interval, level) * MsPerSlot(level) + Offset(interval, level - 1)
  }

  /** The offset lies in the slot `get_index` picks. */
  lemma {:induction false} OffsetInSlot(interval: nat, level: nat)
    ensures Index(interval, level) * MsPerSlot(level) <= Offset(interval, level)
    ensures Offset(interval, level) < Index(interval, level) * MsPerSlot(level) + MsPerSlot(level)
  {
    if level > 0 {
      OffsetInSlot(interval, level - 1);
      var i := Index(interval, level - 1);
      MulMono(i, SLOTS - 1, MsPerSlot(level - 1));
      SlotEnd(SLOTS - 1, MsPerSlot(level - 1));
    }
  }

  /** The digit-by-digit offset is the interval modulo the wheel's span. */
  lemma {:induction false} OffsetIsMod(interval: nat, level: nat)
    ensures Offset(interval, level) == interval % MaxMs(level)
  {
    Digit(interval, MsPerSlot(level));
    if level > 0 {
      OffsetIsMod(interval, level - 1);
      MaxMsIsNextSlot(level - 1);
    }
  }

  /** Inserting into a list whose middle part spans the entry's due time inserts there. */
  lemma InsertMiddle(a: seq<Timed>, s: seq<Timed>, b: seq<Timed>, e: Timed)
    requires forall k :: 0 <= k < |a| ==> a[k].at < e.at
    requires b == [] || e.at <= b[0].at
    ensures Insert(a + s + b, e) == a + Insert(s, e) + b
  {
    assert a + s + b == a + (s + b);
    InsertAfter(a, s + b, e);
    InsertBefore(s, b, e);
  }

  /** The slot `add_entry` chooses gets the entry in order; the other slots are unchanged. */
  lemma {:induction false} AddEntrySlot(w: Wheel, id: nat, interval: nat)
    requires Valid(w)
    ensures InSlot(AddEntry(w, id, interval), Index(interval, Level(w)))
      == Insert(InSlot(w, Index(interval, Level(w))), Timed(id, Offset(interval, Level(w))))
    ensures forall j :: 0 <= j < SLOTS && j != Index(interval, Level(w)) ==>
      InSlot(AddEntry(w, id, interval), j) == InSlot(w, j)
    decreases Level(w), 0
  {
    var i := Index(interval, Level(w));
    var r := AddEntry(w, id, interval);
    if w.Leaf? {
      assert r.lists[i] == [id] + w.lists[i];
      StampInsert(w.lists[i], id, i);
    } else {
      AddEntryChild(w, id, interval);
    }
  }

  /** A node's slot whose child is `c` holds the entries of `c`, moved to the slot's start. */
  lemma NodeSlot(w: Wheel, i: nat, c: Wheel)
    requires w.Node? && i < |w.children| && w.children[i] == Some(c)
    ensures InSlot(w, i) == Shift(Entries(c), i * MsPerSlot(w.level))
  {
  }

  /** What `add_entry` makes of a node: slot `i` owns the child with the entry added. */
  lemma AddEntryNode(w: Wheel, id: nat, interval: nat)
    requires Valid(w) && w.Node?
    ensures AddEntry(w, id, interval).Node? && AddEntry(w, id, interval).level == w.level
    ensures var i := Index(interval, w.level);
      AddEntry(w, id, interval).children
      == w.children[i := Some(AddEntry(ChildOrEmpty(w, i), id, interval))]
  {
  }

  /** `InsertShift`, with every term named, so that callers need not unfold anything. */
  lemma ShiftInsert(x: seq<Timed>, y: seq<Timed>, s: seq<Timed>, t: seq<Timed>, e: Timed, f: Timed, d: int)
    requires x == Shift(y, d) && y == Insert(s, e) && t == Shift(s, d) && f == Timed(e.id, e.at + d)
    ensures x == Insert(t, f)
  {
    InsertShift(s, e, d);
  }

  lemma {:induction false} AddEntryChild(w: Wheel, id: nat, interval: nat)
    requires Valid(w) && w.Node?
    ensures InSlot(AddEntry(w, id, interval), Index(interval, w.level))
      == Insert(InSlot(w, Index(interval, w.level)), Timed(id, Offset(interval, w.level)))
    decreases w.level, 0, 0
  {
    var i := Index(interval, w.level);
    var d := i * MsPerSlot(w.level);
    var child := ChildOrEmpty(w, i);
    var c := AddEntry(child, id, interval);
    var r := AddEntry(w, id, interval);
    AddEntryNode(w, id, interval);
    NodeSlot(r, i, c);
    AddEntryInserts(child, id, interval);
    var e := Timed(id, Offset(interval, w.level - 1));
    ShiftInsert(InSlot(r, i), Entries(c), Entries(child), InSlot(w, i), e, Timed(id, Offset(interval, w.level)), d);
  }

  /**
   * Adding puts the entry, due at the interval's offset within the wheel's span, among the
   * wheel's entries in expiry order, ahead of those due in the same millisecond.
   */
  lemma {:induction false} AddEntryInserts(w: Wheel, id: nat, interval: nat)
    requires Valid(w)
    ensures Entries(AddEntry(w, id, interval)) == Insert(Entries(w), Timed(id, Offset(interval, Level(w))))
    decreases Level(w), 1
  {
    var r := AddEntry(w, id, interval);
    var i := Index(interval, Level(w));
    var ms := MsPerSlot(Level(w));
    var e := Timed(id, Offset(interval, Level(w)));
    OffsetInSlot(interval, Level(w));
    SlotEnd(i, ms);
    AddEntrySlot(w, id, interval);
    SlotUpdate(w, r, i);
    RangeFacts(w, 0, i);
    RangeFacts(w, i + 1, SLOTS);
    InsertMiddle(Range(w, 0, i), InSlot(w, i), Range(w, i + 1, SLOTS), e);
  }

  /** Erasing an entry from a level-0 list erases it from the stamped entries. */
  lemma {:induction false} StampErase(l: seq<nat>, id: nat, at: int)
    ensures EraseFirst(Stamp(l, at), Timed(id, at)) == Stamp(EraseFirst(l, id), at)
  {
    if l != [] {
      StampErase(l[1..], id, at);
      assert Stamp(l, at) == [Timed(l[0], at)] + Stamp(l[1..], at);
    }
  }

  /** Erasing commutes with moving every offset by `d`. */
  lemma {:induction false} ShiftErase(s: seq<Timed>, e: Timed, d: int)
    ensures EraseFirst(Shift(s, d), Timed(e.id, e.at + d)) == Shift(EraseFirst(s, e), d)
  {
    if s != [] {
      var t := s[1..];
      var h := Timed(s[0].id, s[0].at + d);
      assert Shift(s, d) == [h] + Shift(t, d);
      assert (h == Timed(e.id, e.at + d)) == (s[0] == e);
      if s[0] != e {
        ShiftErase(t, e, d);
        assert EraseFirst(s, e) == [s[0]] + EraseFirst(t, e);
        assert Shift([s[0]] + EraseFirst(t, e), d) == [h] + Shift(EraseFirst(t, e), d);
      }
    }
  }

  /** An entry of the wheel due within slot `i`'s span is an entry of slot `i`, and of no earlier slot. */
  lemma SlotOf(w: Wheel, e: Timed, i: nat)
    requires Valid(w) && i < SLOTS && e in Entries(w)
    requires i * MsPerSlot(Level(w)) <= e.at < i * MsPerSlot(Level(w)) + MsPerSlot(Level(w))
    ensures e in InSlot(w, i) && e !in Range(w, 0, i)
  {
    SlotSplit(w, i);
    SlotEnd(i, MsPerSlot(Level(w)));
    RangeFacts(w, 0, i);
    RangeFacts(w, i + 1, SLOTS);
  }

  /** Erasing an entry of slot `i` from the slot erases it from the wheel's entries. */
  lemma EraseInSlot(w: Wheel, v: Wheel, i: nat, e: Timed)
    requires i < SLOTS && e in InSlot(w, i) && e !in Range(w, 0, i)
    requires forall j :: 0 <= j < SLOTS && j != i ==> InSlot(v, j) == InSlot(w, j)
    requires InSlot(v, i) == EraseFirst(InSlot(w, i), e)
    ensures Entries(v) == EraseFirst(Entries(w), e)
  {
    var a, s, b := Range(w, 0, i), InSlot(w, i), Range(w, i + 1, SLOTS);
    SlotUpdate(w, v, i);
    EraseFirstMiddle(a, s, b, e);
  }

  /** A leaf whose slot `i` is given list `l`, its bit set exactly when `l` is not empty. */
  lemma LeafReplace(w: Wheel, i: nat, l: seq<nat>)
    requires Valid(w) && w.Leaf? && i < SLOTS && w.lists[i] != []
    ensures Valid(Leaf(if l == [] then ClearBit(w.bitmap, i) else w.bitmap, w.lists[i := l]))
  {
  }

  /** A node whose occupied slot `i` is given another non-empty child one level down. */
  lemma NodeReplace(w: Wheel, i: nat, c: Wheel)
    requires Valid(w) && w.Node? && i < SLOTS && w.children[i].Some?
    requires Valid(c) && Level(c) == w.level - 1 && c.bitmap != 0
    ensures Valid(Node(w.level, w.bitmap, w.children[i := Some(c)]))
  {
  }

  /**
   * The walk of `Wheel<1>::remove_entry` along a slot's list: from the head to the first
   * node holding the entry, which is unlinked. The entry must be in the list.
   */
  method Unlink(l: seq<nat>, id: nat) returns (rest: seq<nat>)
    requires id in l
    ensures rest == EraseFirst(l, id)
  {
    var k := 0;
    while l[k] != id
      invariant 0 <= k < |l| && id !in l[..k] && id in l[k..]
      decreases |l| - k
    {
      assert l[k..] == [l[k]] + l[k + 1..];
      assert l[..k + 1] == l[..k] + [l[k]];
      k := k + 1;
    }
    EraseFirstAt(l, id, k);
    rest := l[..k] + l[k + 1..];
  }

  /** Unlinking from level-0 slot `i` erases the entry from the wheel. */
  lemma LeafRemoved(w: Wheel, i: nat, id: nat, rest: seq<nat>)
    requires Valid(w) && w.Leaf? && i < SLOTS
    requires Timed(id, i) in InSlot(w, i) && Timed(id, i) !in Range(w, 0, i)
    requires rest == EraseFirst(w.lists[i], id)
    ensures id in w.lists[i]
    ensures Valid(Leaf(if rest == [] then ClearBit(w.bitmap, i) else w.bitmap, w.lists[i := rest]))
    ensures Entries(Leaf(if rest == [] then ClearBit(w.bitmap, i) else w.bitmap, w.lists[i := rest]))
      == EraseFirst(Entries(w), Timed(id, i))
  {
    var l := w.lists[i];
    assert InSlot(w, i) == Stamp(l, i);
    var k :| 0 <= k < |Stamp(l, i)| && Stamp(l, i)[k] == Timed(id, i);
    assert l[k] == id;
    var r := Leaf(if rest == [] then ClearBit(w.bitmap, i) else w.bitmap, w.lists[i := rest]);
    LeafReplace(w, i, rest);
    StampErase(l, id, i);
    assert InSlot(r, i) == Stamp(rest, i);
    EraseInSlot(w, r, i, Timed(id, i));
  }

  /** The child with `e0` erased, moved to slot `i`'s start, is the slot with `e` erased. */
  lemma ChildErased(w: Wheel, i: nat, e: Timed, e0: Timed, c: Wheel)
    requires w.Node? && i < |w.children| && w.children[i].Some?
    requires e == Timed(e0.id, e0.at + i * MsPerSlot(w.level))
    requires Valid(c) && Entries(c) == EraseFirst(Entries(w.children[i].value), e0)
    ensures Shift(Entries(c), i * MsPerSlot(w.level)) == EraseFirst(InSlot(w, i), e)
    ensures c.bitmap == 0 <==> Shift(Entries(c), i * MsPerSlot(w.level)) == []
  {
    var child := w.children[i].value;
    NodeSlot(w, i, child);
    ShiftErase(Entries(child), e0, i * MsPerSlot(w.level));
    EmptyIff(c);
  }

  lemma NodeDropped(w: Wheel, i: nat, e: Timed, s: seq<Timed>)
    requires Valid(w) && w.Node? && i < SLOTS
    requires e in InSlot(w, i) && e !in Range(w, 0, i) && s == [] && s == EraseFirst(InSlot(w, i), e)
    ensures Valid(Node(w.level, ClearBit(w.bitmap, i), w.children[i := None]))
    ensures Entries(Node(w.level, ClearBit(w.bitmap, i), w.children[i := None])) == EraseFirst(Entries(w), e)
  {
    var r := Node(w.level, ClearBit(w.bitmap, i), w.children[i := None]);
    NodeClear(w, i);
    assert InSlot(r, i) == [];
    EraseInSlot(w, r, i, e);
  }

  lemma NodeKept(w: Wheel, i: nat, e: Timed, c: Wheel)
    requires Valid(w) && w.Node? && i < SLOTS && w.children[i].Some?
    requires Valid(c) && Level(c) == w.level - 1 && c.bitmap != 0
    requires e in InSlot(w, i) && e !in Range(w, 0, i)
    requires Shift(Entries(c), i * MsPerSlot(w.level)) == EraseFirst(InSlot(w, i), e)
    ensures Valid(Node(w.level, w.bitmap, w.children[i := Some(c)]))
    ensures Entries(Node(w.level, w.bitmap, w.children[i := Some(c)])) == EraseFirst(Entries(w), e)
  {
    var r := Node(w.level, w.bitmap, w.children[i := Some(c)]);
    NodeReplace(w, i, c);
    NodeSlot(r, i, c);
    EraseInSlot(w, r, i, e);
  }

  /**
   * `remove_entry(entry, interval)`: a level-0 wheel walks the list of slot `interval & 63`
   * to the entry and unlinks it, clearing the slot's bit when the list empties; a higher
   * wheel removes the entry from the child of the interval's digit and drops that child
   * when it empties. The entry must be in the wheel, as the source asserts.
   */
  method RemoveEntry(w: Wheel, id: nat, interval: nat) returns (r: Wheel)
    requires Valid(w) && Timed(id, Offset(interval, Level(w))) in Entries(w)
    ensures Valid(r) && Level(r) == Level(w)
    ensures Entries(r) == EraseFirst(Entries(w), Timed(id, Offset(interval, Level(w))))
    decreases Level(w)
  {
    var i := Index(interval, Level(w));
    OffsetInSlot(interval, Level(w));
    SlotOf(w, Timed(id, Offset(interval, Level(w))), i);
    if w.Leaf? {
      LeafRemoved(w, i, id, EraseFirst(w.lists[i], id));
      var rest := Unlink(w.lists[i], id);
      r := Leaf(if rest == [] then ClearBit(w.bitmap, i) else w.bitmap, w.lists[i := rest]);
    } else {
      RemoveFromChild(w, id, interval, i, Timed(id, Offset(interval, w.level)));
      var c := RemoveEntry(w.children[i].value, id, interval);
      var e := Timed(id, Offset(interval, w.level));
      ChildErased(w, i, e, Timed(id, Offset(interval, w.level - 1)), c);
      if c.bitmap == 0 {
        NodeDropped(w, i, e, Shift(Entries(c), i * MsPerSlot(w.level)));
        r := Node(w.level, ClearBit(w.bitmap, i), w.children[i := None]);
      } else {
        NodeKept(w, i, e, c);
        r := Node(w.level, w.bitmap, w.children[i := Some(c)]);
      }
    }
  }

  /** The entry of a node's slot `i` is its child's entry, at the offset one level down. */
  lemma RemoveFromChild(w: Wheel, id: nat, interval: nat, i: nat, e: Timed)
    requires Valid(w) && w.Node? && i == Index(interval, w.level) && e == Timed(id, Offset(interval, w.level))
    requires e in InSlot(w, i)
    ensures w.children[i].Some?
    ensures Timed(id, Offset(interval, w.level - 1)) in Entries(w.children[i].value)
    ensures Level(w.children[i].value) == w.level - 1
    ensures e == Timed(id, Offset(interval, w.level - 1) + i * MsPerSlot(w.level))
  {
    var c := w.children[i].value;
    NodeSlot(w, i, c);
    var d := i * MsPerSlot(w.level);
    var k :| 0 <= k < |Shift(Entries(c), d)| && Shift(Entries(c), d)[k] == e;
    assert Entries(c)[k] == Timed(id, e.at - d);
  }

  /**
   * `next_expiration_time()`: the lowest occupied slot's start plus, above level 0, the
   * child's next expiration; it is the offset of the wheel's first entry.
   */
  function NextExpiration(w: Wheel): (t: int)
    requires Valid(w) && w.bitmap != 0
    ensures Entries(w) != [] && t == Entries(w)[0].at
    decreases w
  {
    if w.Leaf? then
      LeafFire(w);
      CountrZero(w.bitmap)
    else
      LowestChild(w);
      var c := w.children[CountrZero(w.bitmap)].value;
      var t := NextExpiration(c);
      NodeNext(w, c);
      CountrZero(w.bitmap) * MsPerSlot(w.level) + t
  }

  /** A node's first entry is its lowest child's first entry, moved to that slot's start. */
  lemma NodeNext(w: Wheel, c: Wheel)
    requires Valid(w) && w.Node? && w.bitmap != 0 && CountrZero(w.bitmap) < SLOTS
    requires w.children[CountrZero(w.bitmap)] == Some(c) && Entries(c) != []
    ensures Entries(w) != [] && Entries(w)[0].at == CountrZero(w.bitmap) * MsPerSlot(w.level) + Entries(c)[0].at
  {
    var i := CountrZero(w.bitmap);
    LowestSlot(w);
    NodeSlot(w, i, c);
  }

  /** No entry of the wheel is due before its next expiration, which falls within the wheel's span. */
  lemma NextExpirationEarliest(w: Wheel)
    requires Valid(w) && w.bitmap != 0
    ensures 0 <= NextExpiration(w) < MaxMs(Level(w))
    ensures forall k :: 0 <= k < |Entries(w)| ==> NextExpiration(w) <= Entries(w)[k].at
  {
    EntriesFacts(w);
  }

  /** The number of leading entries due by `t`. */
  function CountDue(s: seq<Timed>, t: int): (n: nat)
    ensures n <= |s|
  {
    if s == [] || s[0].at > t then 0 else 1 + CountDue(s[1..], t)
  }

  /** The leading `CountDue` entries are due and the next one is not. */
  lemma {:induction false} CountDueStops(s: seq<Timed>, t: int)
    ensures forall k :: 0 <= k < CountDue(s, t) ==> s[k].at <= t
    ensures CountDue(s, t) < |s| ==> s[CountDue(s, t)].at > t
  {
    if s != [] && s[0].at <= t {
      CountDueStops(s[1..], t);
    }
  }

  /** Conversely, a split into due entries and a rest that starts with one not due is that count. */
  lemma {:induction false} CountDueSplit(done: seq<Timed>, rest: seq<Timed>, t: int)
    requires forall k :: 0 <= k < |done| ==> done[k].at <= t
    requires rest == [] || rest[0].at > t
    ensures CountDue(done + rest, t) == |done|
  {
    if done == [] {
      assert done + rest == rest;
    } else {
      assert (done + rest)[1..] == done[1..] + rest;
      CountDueSplit(done[1..], rest, t);
    }
  }

  /** In a wheel's ordered entries, the count splits off exactly the entries due by `t`. */
  lemma CountDueSorted(w: Wheel, t: int)
    requires Valid(w)
    ensures forall k :: 0 <= k < |Entries(w)| ==> (k < CountDue(Entries(w), t) <==> Entries(w)[k].at <= t)
  {
    EntriesFacts(w);
    CountDueStops(Entries(w), t);
  }

  lemma IdsConcat(a: seq<Timed>, b: seq<Timed>)
    ensures Ids(a + b) == Ids(a) + Ids(b)
  {
  }

  lemma IdsShift(s: seq<Timed>, d: int)
    ensures Ids(Shift(s, d)) == Ids(s)
  {
  }

  lemma IdsStamp(l: seq<nat>, at: int)
    ensures Ids(Stamp(l, at)) == l
  {
  }

  lemma ShiftConcat(a: seq<Timed>, b: seq<Timed>, d: int)
    ensures Shift(a + b, d) == Shift(a, d) + Shift(b, d)
  {
  }

  /** Replacing slot `i`, with no entry before it: the entries are that slot's, then the later slots'. */
  lemma LowestReplaced(w: Wheel, v: Wheel, i: nat)
    requires i < SLOTS && Range(w, 0, i) == []
    requires forall j :: 0 <= j < SLOTS && j != i ==> InSlot(v, j) == InSlot(w, j)
    ensures Entries(w) == InSlot(w, i) + Range(w, i + 1, SLOTS)
    ensures Entries(v) == InSlot(v, i) + Range(w, i + 1, SLOTS)
  {
    SlotUpdate(w, v, i);
    assert Range(w, 0, i) + InSlot(v, i) == InSlot(v, i);
    assert Range(w, 0, i) + InSlot(w, i) == InSlot(w, i);
  }

  /** A split into due entries and a rest starting with one not due is the split `CountDue` makes. */
  lemma SplitDue(s: seq<Timed>, done: seq<Timed>, rest: seq<Timed>, t: int)
    requires s == done + rest && (rest == [] || rest[0].at > t)
    requires forall k :: 0 <= k < |done| ==> done[k].at <= t
    ensures done == s[..CountDue(s, t)] && rest == s[CountDue(s, t)..]
  {
    CountDueSplit(done, rest, t);
  }

  /** Firing level-0 slot `i`, the lowest occupied: its entries are the first, due at `i`. */
  lemma LeafFire(w: Wheel)
    requires Valid(w) && w.Leaf? && w.bitmap != 0
    ensures var i := CountrZero(w.bitmap);
      var v := Leaf(ClearBit(w.bitmap, i), w.lists[i := []]);
      Valid(v) && Entries(w) == Stamp(w.lists[i], i) + Entries(v) && w.lists[i] != []
      && Entries(w)[0].at == i
  {
    var i := CountrZero(w.bitmap);
    var v := Leaf(ClearBit(w.bitmap, i), w.lists[i := []]);
    LeafClear(w, i);
    LowestSlot(w);
    LeafEmptied(w, ClearBit(w.bitmap, i), i);
    LowestReplaced(w, v, i);
    assert Entries(v) == Range(w, i + 1, SLOTS);
    assert InSlot(w, i) == Stamp(w.lists[i], i);
  }

  /** Emptying list `i` of a leaf empties slot `i` and leaves every other slot as it was. */
  lemma LeafEmptied(w: Wheel, b: nat, i: nat)
    requires w.Leaf? && i < |w.lists|
    ensures InSlot(Leaf(b, w.lists[i := []]), i) == []
    ensures forall j :: 0 <= j < SLOTS && j != i ==> InSlot(Leaf(b, w.lists[i := []]), j) == InSlot(w, j)
  {
  }

  /** One round of the level-0 loop keeps the fired entries a due prefix of the wheel's. */
  lemma LeafStep(es: seq<Timed>, done: seq<Timed>, r: Wheel, remaining: nat)
    requires Valid(r) && r.Leaf? && r.bitmap != 0 && CountrZero(r.bitmap) <= remaining
    requires es == done + Entries(r) && forall k :: 0 <= k < |done| ==> done[k].at <= remaining
    ensures var i := CountrZero(r.bitmap);
      var v := Leaf(ClearBit(r.bitmap, i), r.lists[i := []]);
      var done' := done + Stamp(r.lists[i], i);
      Valid(v) && es == done' + Entries(v) && |Entries(v)| < |Entries(r)|
      && (forall k :: 0 <= k < |done'| ==> done'[k].at <= remaining)
      && Ids(done') == Ids(done) + r.lists[i]
  {
    var i := CountrZero(r.bitmap);
    LeafFire(r);
    IdsConcat(done, Stamp(r.lists[i], i));
    IdsStamp(r.lists[i], i);
  }

  /** The inner loop of `Wheel<1>::handle_expired_entries`: executes a slot's list from the head. */
  method ExecuteList(fired: seq<nat>, l: seq<nat>) returns (f: seq<nat>)
    ensures f == fired + l
  {
    f := fired;
    var rest := l;
    while rest != []
      invariant f + rest == fired + l
    {
      assert rest == [rest[0]] + rest[1..];
      f := f + [rest[0]];
      rest := rest[1..];
    }
  }

  /**
   * `Wheel<1>::handle_expired_entries(..., remaining_ms)`: while some slot is occupied, the
   * lowest one, if due within `remaining_ms`, has its whole list executed from the head and
   * its bit cleared; the first slot not due ends the loop.
   */
  method HandleExpiredLeaf(w: Wheel, remaining: nat) returns (r: Wheel, fired: seq<nat>)
    requires Valid(w) && w.Leaf?
    ensures Valid(r) && r.Leaf?
    ensures fired == Ids(Entries(w)[..CountDue(Entries(w), remaining)])
    ensures Entries(r) == Entries(w)[CountDue(Entries(w), remaining)..]
  {
    r, fired := w, [];
    ghost var done: seq<Timed> := [];
    while r.bitmap != 0
      invariant Valid(r) && r.Leaf?
      invariant Entries(w) == done + Entries(r) && fired == Ids(done)
      invariant forall k :: 0 <= k < |done| ==> done[k].at <= remaining
      decreases |Entries(r)|
    {
      var i := CountrZero(r.bitmap);
      if i > remaining {
        LeafFire(r);
        break;
      }
      LeafStep(Entries(w), done, r, remaining);
      fired := ExecuteList(fired, r.lists[i]);
      done := done + Stamp(r.lists[i], i);
      r := Leaf(ClearBit(r.bitmap, i), r.lists[i := []]);
    }
    EmptyIff(r);
    SplitDue(Entries(w), done, Entries(r), remaining);
  }

  /** The lowest occupied slot of a node starts no later than the node's first entry. */
  lemma NodeFirst(w: Wheel)
    requires Valid(w) && w.Node? && w.bitmap != 0
    ensures Entries(w) != [] && Entries(w)[0].at >= CountrZero(w.bitmap) * MsPerSlot(w.level)
  {
    var i := CountrZero(w.bitmap);
    LowestSlot(w);
    SlotFacts(w, i);
    assert Entries(w)[0] == InSlot(w, i)[0];
  }

  /**
   * One round of the node loop: the child of the lowest slot `i` fired the entries due within
   * `remaining - d`, `d` being the slot's start; those entries, moved by `d`, extend the due
   * prefix, and the node's entries are now the child's rest, moved by `d`, then later slots'.
   */
  lemma NodeFire(es: seq<Timed>, done: seq<Timed>, r: Wheel, i: nat, d: int, child: Wheel, c: Wheel, n: nat, remaining: nat)
    requires Valid(r) && r.Node? && r.bitmap != 0 && i == CountrZero(r.bitmap)
    requires d == i * MsPerSlot(r.level) && d <= remaining && r.children[i] == Some(child)
    requires Valid(c) && n == CountDue(Entries(child), remaining - d) && Entries(c) == Entries(child)[n..]
    requires es == done + Entries(r) && forall k :: 0 <= k < |done| ==> done[k].at <= remaining
    ensures Ids(done + Shift(Entries(child)[..n], d)) == Ids(done) + Ids(Entries(child)[..n])
    ensures forall k :: 0 <= k < |done + Shift(Entries(child)[..n], d)| ==> (done + Shift(Entries(child)[..n], d))[k].at <= remaining
    ensures es == done + Shift(Entries(child)[..n], d) + (Shift(Entries(c), d) + Range(r, i + 1, SLOTS))
    ensures Entries(c) == [] ==> n > 0
    ensures Entries(c) != [] ==> Shift(Entries(c), d)[0].at > remaining
  {
    var ec := Entries(child);
    var rest := Range(r, i + 1, SLOTS);
    LowestSlot(w := r);
    NodeSlot(r, i, child);
    assert ec == ec[..n] + ec[n..];
    ShiftConcat(ec[..n], ec[n..], d);
    assert Entries(r) == Shift(ec[..n], d) + Shift(Entries(c), d) + rest;
    Regroup(done, Shift(ec[..n], d), Shift(Entries(c), d), rest);
    FireShifted(done, ec, n, d, remaining);
    EmptyIff(child);
  }

  lemma Regroup(a: seq<Timed>, b: seq<Timed>, c: seq<Timed>, e: seq<Timed>)
    ensures a + (b + c + e) == a + b + (c + e)
  {
  }

  /** The entries a child fired, moved to its slot's start, are due; the child's next one is not. */
  lemma FireShifted(done: seq<Timed>, ec: seq<Timed>, n: nat, d: int, remaining: int)
    requires n == CountDue(ec, remaining - d)
    requires forall k :: 0 <= k < |done| ==> done[k].at <= remaining
    ensures Ids(done + Shift(ec[..n], d)) == Ids(done) + Ids(ec[..n])
    ensures forall k :: 0 <= k < |done + Shift(ec[..n], d)| ==> (done + Shift(ec[..n], d))[k].at <= remaining
    ensures ec[n..] != [] ==> Shift(ec[n..], d)[0].at > remaining
  {
    CountDueStops(ec, remaining - d);
    IdsConcat(done, Shift(ec[..n], d));
    IdsShift(ec[..n], d);
  }

  /** The lowest occupied slot of a node owns a valid, non-empty child one level down. */
  lemma LowestChild(r: Wheel)
    requires Valid(r) && r.Node? && r.bitmap != 0
    ensures CountrZero(r.bitmap) < SLOTS && r.children[CountrZero(r.bitmap)].Some?
    ensures var c := r.children[CountrZero(r.bitmap)].value;
      Valid(c) && Level(c) == r.level - 1 && c.bitmap != 0
  {
    LowestSlot(r);
  }

  /** Dropping the emptied child of the lowest slot leaves the later slots' entries. */
  lemma NodeDrop(es: seq<Timed>, done: seq<Timed>, r: Wheel, i: nat, d: int, c: Wheel)
    requires Valid(r) && r.Node? && r.bitmap != 0 && i == CountrZero(r.bitmap)
    requires Valid(c) && c.bitmap == 0 && d == i * MsPerSlot(r.level)
    requires es == done + (Shift(Entries(c), d) + Range(r, i + 1, SLOTS))
    ensures Valid(Node(r.level, ClearBit(r.bitmap, i), r.children[i := None]))
    ensures es == done + Entries(Node(r.level, ClearBit(r.bitmap, i), r.children[i := None]))
    ensures |Entries(Node(r.level, ClearBit(r.bitmap, i), r.children[i := None]))| < |Entries(r)|
  {
    var v := Node(r.level, ClearBit(r.bitmap, i), r.children[i := None]);
    EmptyIff(c);
    assert Shift(Entries(c), d) == [];
    NodeClear(r, i);
    LowestSlot(r);
    LowestReplaced(r, v, i);
    assert InSlot(v, i) == [];
  }

  /** Keeping the non-empty child `c` in the lowest slot: the node's next entry is not yet due. */
  lemma NodeKeep(es: seq<Timed>, done: seq<Timed>, r: Wheel, i: nat, d: int, c: Wheel, remaining: int)
    requires Valid(r) && r.Node? && r.bitmap != 0 && i == CountrZero(r.bitmap)
    requires Valid(c) && Level(c) == r.level - 1 && c.bitmap != 0 && d == i * MsPerSlot(r.level)
    requires es == done + (Shift(Entries(c), d) + Range(r, i + 1, SLOTS))
    requires Entries(c) != [] ==> Shift(Entries(c), d)[0].at > remaining
    ensures Valid(Node(r.level, r.bitmap, r.children[i := Some(c)]))
    ensures es == done + Entries(Node(r.level, r.bitmap, r.children[i := Some(c)]))
    ensures Entries(Node(r.level, r.bitmap, r.children[i := Some(c)])) != []
    ensures Entries(Node(r.level, r.bitmap, r.children[i := Some(c)]))[0].at > remaining
  {
    var v := Node(r.level, r.bitmap, r.children[i := Some(c)]);
    EmptyIff(c);
    LowestSlot(r);
    NodeReplace(r, i, c);
    NodeSlot(v, i, c);
    LowestReplaced(r, v, i);
  }

  /**
   * `handle_expired_entries(..., remaining_ms)` of a wheel above level 0: while some slot is
   * occupied, the lowest slot `i` is skipped with the rest if it starts after `remaining_ms`;
   * otherwise its child handles what is due within `remaining_ms - i * MS_PER_SLOT`, and is
   * dropped if that empties it, or else ends the loop.
   */
  method HandleExpiredNode(w: Wheel, remaining: nat) returns (r: Wheel, fired: seq<nat>)
    requires Valid(w) && w.Node?
    ensures Valid(r) && Level(r) == Level(w)
    ensures fired == Ids(Entries(w)[..CountDue(Entries(w), remaining)])
    ensures Entries(r) == Entries(w)[CountDue(Entries(w), remaining)..]
    decreases Level(w), 0
  {
    r, fired := w, [];
    ghost var done: seq<Timed> := [];
    while r.bitmap != 0
      invariant Valid(r) && r.Node? && r.level == w.level
      invariant Entries(w) == done + Entries(r) && fired == Ids(done)
      invariant forall k :: 0 <= k < |done| ==> done[k].at <= remaining
      decreases |Entries(r)|
    {
      var i := CountrZero(r.bitmap);
      var d := i * MsPerSlot(r.level);
      if d > remaining {
        NodeFirst(r);
        break;
      }
      LowestChild(r);
      var child := r.children[i].value;
      var c, f := HandleExpired(child, remaining - d);
      ghost var n := CountDue(Entries(child), remaining - d);
      NodeFire(Entries(w), done, r, i, d, child, c, n, remaining);
      done := done + Shift(Entries(child)[..n], d);
      fired := fired + f;
      if c.bitmap == 0 {
        NodeDrop(Entries(w), done, r, i, d, c);
        r := Node(r.level, ClearBit(r.bitmap, i), r.children[i := None]);
      } else {
        NodeKeep(Entries(w), done, r, i, d, c, remaining);
        r := Node(r.level, r.bitmap, r.children[i := Some(c)]);
        break;
      }
    }
    EmptyIff(r);
    SplitDue(Entries(w), done, Entries(r), remaining);
  }

  /**
   * `handle_expired_entries(..., remaining_ms)`: fires, in the wheel's order, exactly the
   * entries due within `remaining_ms` of the wheel's start, and keeps the others.
   */
  method HandleExpired(w: Wheel, remaining: nat) returns (r: Wheel, fired: seq<nat>)
    requires Valid(w)
    ensures Valid(r) && Level(r) == Level(w)
    ensures fired == Ids(Entries(w)[..CountDue(Entries(w), remaining)])
    ensures Entries(r) == Entries(w)[CountDue(Entries(w), remaining)..]
    decreases Level(w), 1
  {
    if w.Leaf? {
      r, fired := HandleExpiredLeaf(w, remaining);
    } else {
      r, fired := HandleExpiredNode(w, remaining);
    }
  }

  /** Moving by nothing changes nothing. */
  lemma ShiftZero(s: seq<Timed>)
    ensures Shift(s, 0) == s
  {
    assert forall k :: 0 <= k < |s| ==> Shift(s, 0)[k] == s[k];
  }

  /** Moving by `a` then by `b` is moving by `a + b`. */
  lemma ShiftShift(s: seq<Timed>, a: int, b: int)
    ensures Shift(Shift(s, a), b) == Shift(s, a + b)
  {
  }

  /** The node `rotate` builds: slot j holds what slot j + start held, the top slots nothing. */
  predicate Rotated(w: Wheel, r: Wheel, start: nat)
    requires w.Node? && r.Node? && |w.children| == SLOTS && |r.children| == SLOTS && start <= SLOTS
  {
    (forall j :: 0 <= j < SLOTS - start ==> r.children[j] == w.children[j + start])
    && (forall j :: SLOTS - start <= j < SLOTS ==> r.children[j].None?)
  }

  /** Slots `lo` to `hi - 1` of the rotated node, moved by `start` slots, are slots `lo + start` on of the old. */
  lemma {:induction false} RangeRotated(w: Wheel, r: Wheel, start: nat, lo: nat, hi: nat)
    requires w.Node? && r.Node? && r.level == w.level && |w.children| == SLOTS && |r.children| == SLOTS
    requires start <= SLOTS && Rotated(w, r, start) && lo <= hi <= SLOTS - start
    ensures Shift(Range(r, lo, hi), start * MsPerSlot(w.level)) == Range(w, lo + start, hi + start)
    decreases hi - lo
  {
    var ms := MsPerSlot(w.level);
    if lo < hi {
      RangeRotated(w, r, start, lo + 1, hi);
      ShiftConcat(InSlot(r, lo), Range(r, lo + 1, hi), start * ms);
      assert (lo + start) * ms == lo * ms + start * ms;
      if r.children[lo].Some? {
        var c := r.children[lo].value;
        NodeSlot(r, lo, c);
        NodeSlot(w, lo + start, c);
        ShiftShift(Entries(c), lo * ms, start * ms);
      }
    }
  }

  lemma RotatedValid(w: Wheel, r: Wheel, start: nat)
    requires Valid(w) && w.Node? && 0 < start < SLOTS
    requires r.Node? && r.level == w.level && r.bitmap == ShiftDown(w.bitmap, start) && |r.children| == SLOTS
    requires Rotated(w, r, start)
    ensures Valid(r)
  {
    forall j | 0 <= j < SLOTS
      ensures Bit(r.bitmap, j) <==> r.children[j].Some?
    {
      if j + start >= SLOTS {
        HighBitClear(w.bitmap, 64, j + start);
      }
    }
  }

  /** The rotated node is valid and holds the same entries, `start` slots earlier. */
  lemma RotatedEntries(w: Wheel, r: Wheel, start: nat)
    requires Valid(w) && w.Node? && 0 < start < SLOTS
    requires forall j :: 0 <= j < start ==> w.children[j].None?
    requires r.Node? && r.level == w.level && r.bitmap == ShiftDown(w.bitmap, start) && |r.children| == SLOTS
    requires Rotated(w, r, start)
    ensures Valid(r)
    ensures Shift(Entries(r), start * MsPerSlot(w.level)) == Entries(w)
  {
    RotatedValid(w, r, start);
    RangeSplit(r, 0, SLOTS - start, SLOTS);
    RangeEmpty(r, SLOTS - start, SLOTS);
    assert Range(r, 0, SLOTS - start) + [] == Range(r, 0, SLOTS - start);
    RangeRotated(w, r, start, 0, SLOTS - start);
    RangeSplit(w, 0, start, SLOTS);
    RangeEmpty(w, 0, start);
    assert [] + Range(w, start, SLOTS) == Range(w, start, SLOTS);
  }

  /**
   * `rotate(start)`: each slot from `start` up moves down by `start` slots, into a slot the
   * source asserts is empty, and the bitmap shifts right by `start`. Every slot below `start`
   * must be empty, as `handle_expired_entries` leaves them before the timer rotates.
   */
  method Rotate(w: Wheel, start: nat) returns (r: Wheel)
    requires Valid(w) && w.Node? && 0 < start < SLOTS
    requires forall j :: 0 <= j < start ==> !Occupied(w, j)
    ensures Valid(r) && Level(r) == Level(w)
    ensures Shift(Entries(r), start * MsPerSlot(w.level)) == Entries(w)
  {
    var cs := w.children;
    forall j | 0 <= j < start
      ensures cs[j].None?
    {
      assert !Occupied(w, j);
    }
    for i := start to SLOTS
      invariant |cs| == SLOTS
      invariant forall j :: 0 <= j < i - start ==> cs[j] == w.children[j + start]
      invariant forall j :: i - start <= j < i ==> cs[j].None?
      invariant forall j :: i <= j < SLOTS ==> cs[j] == w.children[j]
    {
      assert cs[i - start].None?;
      cs := cs[i - start := cs[i]][i := None];
    }
    r := Node(w.level, ShiftDown(w.bitmap, start), cs);
    RotatedEntries(w, r, start);
  }

  /**
   * Once no entry is due by `t`, every slot that ends by `t` is empty: `handle_expired_entries`
   * leaves the slots `rotate` must find empty.
   */
  lemma NoneDueBelow(w: Wheel, t: int, n: nat)
    requires Valid(w) && (Entries(w) == [] || Entries(w)[0].at > t)
    requires n * MsPerSlot(Level(w)) <= t + 1
    ensures forall j :: 0 <= j < n ==> !Occupied(w, j)
  {
    var ms := MsPerSlot(Level(w));
    forall j | 0 <= j < n
      ensures !Occupied(w, j)
    {
      MulMono(j + 1, n, ms);
      if Occupied(w, j) {
        FirstBelow(w, j);
        assert false;
      }
    }
  }

  /** A wheel with slot `j` occupied has its first entry due before slot `j` ends. */
  lemma FirstBelow(w: Wheel, j: nat)
    requires Valid(w) && Occupied(w, j)
    ensures Entries(w) != [] && Entries(w)[0].at < (j + 1) * MsPerSlot(Level(w))
  {
    var ms := MsPerSlot(Level(w));
    assert Bit(w.bitmap, j);
    ZeroHasNoBit(j);
    var i := CountrZero(w.bitmap);
    LowestSlot(w);
    SlotFacts(w, i);
    MulMono(i + 1, j + 1, ms);
    SlotEnd(i, ms);
    assert Entries(w)[0] == InSlot(w, i)[0];
  }
}
