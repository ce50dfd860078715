/**
 * `zedio::util::StackRingBuffer<T, SIZE>` and `zedio::util::HeapRingBuffer<T>`: ring buffers
 * of `capacity + 1` cells with a `start_` and an `end_` cursor.
 */
module UtilRingBuffer {
  import opened Wrappers
  import Ring

  /** The fixed-size ring over a `std::array` of SIZE + 1 cells; push and take are unchecked. */
  class StackRingBuffer<T(0)> {
    const capacity: nat
    const data: array<T>
    var start: nat
    var end: nat

    predicate Valid()
      reads this
    {
      data.Length == capacity + 1 && Ring.Cursors(data.Length, start, end)
    }

    /** The stored elements, oldest first. */
    function Elements(): seq<T>
      reads this, data
      requires Valid()
    {
      Ring.Contents(data[..], start, end)
    }

    constructor(size: nat)
      ensures Valid() && capacity == size && Elements() == []
    {
      capacity := size;
      data := new T[size + 1];
      start, end := 0, 0;
    }

    /** `is_empty()`. */
    function IsEmpty(): (b: bool)
      reads this, data
      requires Valid()
      ensures b <==> Elements() == []
    {
      Ring.EmptyIffNoElements(data[..], start, end);
      start == end
    }

    /** `is_fill()`. */
    function IsFill(): (b: bool)
      reads this, data
      requires Valid()
      ensures b <==> |Elements()| == capacity
    {
      Ring.FillIffAtCapacity(data[..], start, end);
      Ring.Next(end, data.Length) == start
    }

    /** `size()`. */
    function Size(): (n: nat)
      reads this, data
      requires Valid()
      ensures n == |Elements()| <= capacity
    {
      Ring.SizeIsLength(data[..], start, end);
      Ring.Size(data.Length, start, end)
    }

    /** `push(val)`: the caller guarantees room. */
    method Push(v: T)
      requires Valid() && !IsFill()
      modifies this, data
      ensures Valid() && Elements() == old(Elements()) + [v]
    {
      Ring.PushAppends(data[..], start, end, v);
      data[end] := v;
      end := Ring.Next(end, data.Length);
    }

    /** `take()`: the caller guarantees an element. */
    method Take() returns (v: T)
      requires Valid() && !IsEmpty()
      modifies this
      ensures Valid() && v == old(Elements())[0] && Elements() == old(Elements())[1..]
    {
      Ring.TakeRemovesOldest(data[..], start, end);
      v := data[start];
      start := Ring.Next(start, data.Length);
    }
  }

  /** The heap ring over a `std::vector` of `size + 1` cells, with checked push/pop and resize. */
  class HeapRingBuffer<T(0)> {
    var data: array<T>
    var start: nat
    var end: nat

    predicate Valid()
      reads this
    {
      Ring.Cursors(data.Length, start, end)
    }

    function Elements(): seq<T>
      reads this, data
      requires Valid()
    {
      Ring.Contents(data[..], start, end)
    }

    /** `capacity()`: one cell fewer than the vector, so never below the element count. */
    function Capacity(): (c: nat)
      reads this
      requires Valid()
      ensures c + 1 == data.Length && Ring.Size(data.Length, start, end) <= c
    {
      data.Length - 1
    }

    constructor(size: nat)
      ensures Valid() && fresh(data) && Capacity() == size && Elements() == []
    {
      data := new T[size + 1];
      start, end := 0, 0;
    }

    /** `is_empty()`. */
    function IsEmpty(): (b: bool)
      reads this, data
      requires Valid()
      ensures b <==> Elements() == []
    {
      Ring.EmptyIffNoElements(data[..], start, end);
      start == end
    }

    /** `is_fill()`. */
    function IsFill(): (b: bool)
      reads this, data
      requires Valid()
      ensures b <==> |Elements()| == Capacity()
    {
      Ring.FillIffAtCapacity(data[..], start, end);
      Ring.Next(end, data.Length) == start
    }

    /** `size()`. */
    function Size(): (n: nat)
      reads this, data
      requires Valid()
      ensures n == |Elements()| <= Capacity()
    {
      Ring.SizeIsLength(data[..], start, end);
      Ring.Size(data.Length, start, end)
    }

    /** `safety_push(val)`: asserts the ring is not full. */
    method SafetyPush(v: T)
      requires Valid() && !IsFill()
      modifies this, data
      ensures Valid() && data == old(data) && Elements() == old(Elements()) + [v]
    {
      Ring.PushAppends(data[..], start, end, v);
      data[end] := v;
      end := Ring.Next(end, data.Length);
    }

    /** `safety_pop()`: asserts the ring is not empty. */
    method SafetyPop() returns (v: T)
      requires Valid() && !IsEmpty()
      modifies this
      ensures Valid() && data == old(data) && v == old(Elements())[0] && Elements() == old(Elements())[1..]
    {
      Ring.TakeRemovesOldest(data[..], start, end);
      v := data[start];
      start := Ring.Next(start, data.Length);
    }

    /** `push(val)`: refuses, changing nothing, when full. */
    method Push(v: T) returns (ok: bool)
      requires Valid()
      modifies this, data
      ensures Valid() && data == old(data)
      ensures ok <==> old(|Elements()|) < Capacity()
      ensures Elements() == if ok then old(Elements()) + [v] else old(Elements())
    {
      if IsFill() {
        return false;
      }
      SafetyPush(v);
      ok := true;
    }

    /** `pop()`: the oldest element, or none when empty. */
    method Pop() returns (r: Option<T>)
      requires Valid()
      modifies this
      ensures Valid() && data == old(data)
      ensures r.None? <==> old(Elements()) == []
      ensures r.Some? ==> r.value == old(Elements())[0] && Elements() == old(Elements())[1..]
      ensures r.None? ==> Elements() == old(Elements())
    {
      if IsEmpty() {
        return None;
      }
      var v := SafetyPop();
      r := Some(v);
    }

    /**
     * `resize(new_capacity)` with the too-small test on the capacity and the cursors of an
     * empty ring reset; `Ring.ResizeAsWritten` is the index arithmetic as written.
     */
    method Resize(newCap: nat) returns (ok: bool)
      requires Valid()
      modifies this
      ensures Valid()
      ensures ok <==> Ring.Resize(old(data.Length), old(start), old(end), newCap).Accepted?
      ensures ok <==> newCap >= old(|Elements()|)
      ensures ok ==> Capacity() == newCap && Elements() == old(Elements())
      ensures !ok ==> data == old(data) && start == old(start) && end == old(end)
    {
      Ring.SizeIsLength(data[..], start, end);
      if newCap + 1 == data.Length {
        return true;
      }
      var n := Ring.Size(data.Length, start, end);
      if newCap < n {
        return false;
      }
      var copy := Ring.CopyToFront(data, start, end, newCap + 1);
      data, start, end := copy, 0, n;
      ok := true;
    }
  }
}
