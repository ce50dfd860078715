/**
 * The index arithmetic shared by every ring buffer of the runtime: `slots` cells hold at most
 * `slots - 1` elements between `start` (oldest) and `end` (next free cell), and one cell is
 * always kept free so that `start == end` means empty.
 */
module Ring {

  /** The live elements of a ring, oldest first. */
  function Contents<T>(d: seq<T>, start: nat, end: nat): seq<T>
    requires start < |d| && end < |d|
  {
    if start <= end then d[start..end] else d[start..] + d[..end]
  }

  /** The cursor step `(i + 1) % slots` of push and take, for a cursor inside the ring. */
  function Next(i: nat, slots: nat): (j: nat)
    requires i < slots
    ensures j < slots && j == (i + 1) % slots
  {
    if i + 1 == slots then 0 else i + 1
  }

  /** The number of stored elements, counted from `start` round to `end`. */
  function Size(slots: nat, start: nat, end: nat): (n: nat)
    requires start < slots && end < slots
    ensures n < slots
  {
    if start <= end then end - start else end + slots - start
  }

  /** `Size` is the source's `size()` formula (end - start + slots) % slots. */
  lemma SizeFormula(slots: nat, start: nat, end: nat)
    requires start < slots && end < slots
    ensures Size(slots, start, end) == (end - start + slots) % slots
  {
  }

  /** The number of live elements is the ring size, which never reaches `slots`. */
  lemma SizeIsLength<T>(d: seq<T>, start: nat, end: nat)
    requires start < |d| && end < |d|
    ensures |Contents(d, start, end)| == Size(|d|, start, end) < |d|
  {
  }

  /** `start == end` (is_empty) exactly when nothing is stored. */
  lemma EmptyIffNoElements<T>(d: seq<T>, start: nat, end: nat)
    requires start < |d| && end < |d|
    ensures start == end <==> Contents(d, start, end) == []
  {
  }

  /** `(end + 1) % slots == start` (is_fill) exactly when slots - 1 elements are stored. */
  lemma FillIffAtCapacity<T>(d: seq<T>, start: nat, end: nat)
    requires start < |d| && end < |d|
    ensures Next(end, |d|) == start <==> |Contents(d, start, end)| == |d| - 1
  {
  }

  /** Writing at `end` and advancing it appends one element at the back. */
  lemma {:induction false} PushAppends<T>(d: seq<T>, start: nat, end: nat, v: T)
    requires start < |d| && end < |d| && Next(end, |d|) != start
    ensures Contents(d[end := v], start, Next(end, |d|)) == Contents(d, start, end) + [v]
  {
    var d' := d[end := v];
    if start <= end {
      if end + 1 < |d| {
        assert d'[start..end + 1] == d[start..end] + [v];
      } else {
        assert d'[start..] + d'[..0] == d[start..end] + [v];
      }
    } else {
      assert d'[start..] == d[start..];
      assert d'[..end + 1] == d[..end] + [v];
    }
  }

  /** Reading at `start` and advancing it removes the oldest element. */
  lemma {:induction false} TakeRemovesOldest<T>(d: seq<T>, start: nat, end: nat)
    requires start < |d| && end < |d| && start != end
    ensures Contents(d, start, end) != [] && Contents(d, start, end)[0] == d[start]
    ensures Contents(d, Next(start, |d|), end) == Contents(d, start, end)[1..]
  {
    if start > end && start + 1 == |d| {
      assert d[start..] == [d[start]];
    }
  }

  /** Both cursors index a cell of a ring of `slots` cells. */
  predicate Cursors(slots: nat, start: nat, end: nat)
  {
    start < slots && end < slots
  }

  /** The cursors after a resize, or a refusal. */
  datatype Resized = Refused | Accepted(slots: nat, start: nat, end: nat)

  /**
   * `resize(new_size)` of HeapRingBuffer and FlexRingBuffer, index arithmetic exactly as
   * written: `new_size` is incremented before the too-small test, and an empty ring keeps its
   * cursors.
   */
  function ResizeAsWritten(slots: nat, start: nat, end: nat, newSize: nat): (r: Resized)
    requires start < slots && end < slots
    ensures r.Accepted? ==> r.slots == newSize + 1
  {
    var n := newSize + 1;
    if n == slots then Accepted(slots, start, end)
    else if n < Size(slots, start, end) then Refused
    else if start < end then Accepted(n, 0, end - start)
    else if start > end then Accepted(n, 0, end + slots - start)
    else Accepted(n, start, end)
  }

  /** A request for capacity size() - 1 is accepted and leaves `end` one past the last cell. */
  lemma ResizeAsWrittenAcceptsTooSmall()
    ensures Size(6, 0, 5) == 5
    ensures ResizeAsWritten(6, 0, 5, 4) == Accepted(5, 0, 5)
  {
  }

  /** Shrinking an empty ring whose cursors sit past the new end keeps them out of range. */
  lemma ResizeAsWrittenKeepsStaleCursors()
    ensures Size(6, 4, 4) == 0
    ensures ResizeAsWritten(6, 4, 4, 2) == Accepted(3, 4, 4)
  {
  }

  /**
   * The intended resize: refused exactly when the new capacity is below the current size;
   * otherwise the elements move to the front of `newCap + 1` cells.
   */
  function Resize(slots: nat, start: nat, end: nat, newCap: nat): (r: Resized)
    requires start < slots && end < slots
    ensures r.Refused? <==> newCap < Size(slots, start, end)
    ensures r.Accepted? ==> r.slots == newCap + 1 && r.start < r.slots && r.end < r.slots
    ensures r.Accepted? ==> Size(r.slots, r.start, r.end) == Size(slots, start, end)
  {
    if newCap + 1 == slots then Accepted(slots, start, end)
    else if newCap < Size(slots, start, end) then Refused
    else Accepted(newCap + 1, 0, Size(slots, start, end))
  }

  /**
   * The storage step of an accepted resize: a fresh array of `slots` cells whose first cells
   * hold the live elements in order (the two `std::copy` calls of the source).
   */
  method CopyToFront<T(0)>(data: array<T>, start: nat, end: nat, slots: nat) returns (fresh_: array<T>)
    requires start < data.Length && end < data.Length
    requires |Contents(data[..], start, end)| < slots
    ensures fresh(fresh_) && fresh_.Length == slots
    ensures fresh_[..|Contents(data[..], start, end)|] == Contents(data[..], start, end)
  {
    fresh_ := new T[slots];
    if start < end {
      CopyRange(data, start, fresh_, 0, end - start);
      assert fresh_[..end - start] == fresh_[0..end - start];
    } else if start > end {
      CopyWrapped(data, start, end, fresh_);
    }
  }

  /** The two copies of a wrapped ring: `[start, slots)` then `[0, end)`, back to back. */
  method CopyWrapped<T>(data: array<T>, start: nat, end: nat, dst: array<T>)
    requires end < start < data.Length && data != dst
    requires data.Length - start + end <= dst.Length
    modifies dst
    ensures dst[..data.Length - start + end] == data[start..] + data[..end]
  {
    var head := data.Length - start;
    CopyRange(data, start, dst, 0, head);
    assert dst[..head] == data[start..];
    CopyRange(data, 0, dst, head, end);
    assert dst[..head + end] == dst[..head] + dst[head..head + end];
  }

  /** One `std::copy`: `count` cells of `src` from `from` go to `dst` from `at`; cells before `at` stay. */
  method CopyRange<T>(src: array<T>, from: nat, dst: array<T>, at: nat, count: nat)
    requires src != dst && from + count <= src.Length && at + count <= dst.Length
    modifies dst
    ensures dst[at..at + count] == src[from..from + count]
    ensures dst[..at] == old(dst[..at])
  {
    var i := 0;
    while i < count
      invariant 0 <= i <= count
      invariant dst[at..at + i] == src[from..from + i]
      invariant dst[..at] == old(dst[..at])
    {
      dst[at + i] := src[from + i];
      i := i + 1;
    }
  }
}
