/**
 * `zedio::FixedRingBuffer<T, SIZE>` and `zedio::FlexRingBuffer<T>`: the container ring buffers.
 * Their `push` and `take` are unchecked, so callers must know there is room or an element.
 */
module ContainerRingBuffer {
  import Ring

  /** The ring over a `std::array` of SIZE + 1 cells. */
  class FixedRingBuffer<T(0)> {
    const capacity: nat
    const data: array<T>
    var start: nat
    var end: nat

    predicate Valid()
      reads this
    {
      data.Length == capacity + 1 && Ring.Cursors(data.Length, start, end)
    }

    function Elements(): seq<T>
      reads this, data
      requires Valid()
    {
      Ring.Contents(data[..], start, end)
    }

    constructor(size: nat)
      ensures Valid() && capacity == size && Elements() == []
    {
      capacity := size;
      data := new T[size + 1];
      start, end := 0, 0;
    }

    /** `empty()`. */
    function Empty(): (b: bool)
      reads this, data
      requires Valid()
      ensures b <==> Elements() == []
    {
      Ring.EmptyIffNoElements(data[..], start, end);
      start == end
    }

    /** `fill()`. */
    function Fill(): (b: bool)
      reads this, data
      requires Valid()
      ensures b <==> |Elements()| == capacity
    {
      Ring.FillIffAtCapacity(data[..], start, end);
      Ring.Next(end, data.Length) == start
    }

    /** `size()`. */
    function Size(): (n: nat)
      reads this, data
      requires Valid()
      ensures n == |Elements()| <= capacity
    {
      Ring.SizeIsLength(data[..], start, end);
      Ring.Size(data.Length, start, end)
    }

    /** `push(val)`. */
    method Push(v: T)
      requires Valid() && !Fill()
      modifies this, data
      ensures Valid() && Elements() == old(Elements()) + [v]
    {
      Ring.PushAppends(data[..], start, end, v);
      data[end] := v;
      end := Ring.Next(end, data.Length);
    }

    /** `take()`. */
    method Take() returns (v: T)
      requires Valid() && !Empty()
      modifies this
      ensures Valid() && v == old(Elements())[0] && Elements() == old(Elements())[1..]
    {
      Ring.TakeRemovesOldest(data[..], start, end);
      v := data[start];
      start := Ring.Next(start, data.Length);
    }
  }

  /** The ring over a `std::vector` of `size + 1` cells, resizable. */
  class FlexRingBuffer<T(0)> {
    var data: array<T>
    var start: nat
    var end: nat

    predicate Valid()
      reads this
    {
      Ring.Cursors(data.Length, start, end)
    }

    function Elements(): seq<T>
      reads this, data
      requires Valid()
    {
      Ring.Contents(data[..], start, end)
    }

    /** `capacity()`: one cell fewer than the vector, so never below the element count. */
    function Capacity(): (c: nat)
      reads this
      requires Valid()
      ensures c + 1 == data.Length && Ring.Size(data.Length, start, end) <= c
    {
      data.Length - 1
    }

    constructor(size: nat)
      ensures Valid() && fresh(data) && Capacity() == size && Elements() == []
    {
      data := new T[size + 1];
      start, end := 0, 0;
    }

    /** `empty()`. */
    function Empty(): (b: bool)
      reads this, data
      requires Valid()
      ensures b <==> Elements() == []
    {
      Ring.EmptyIffNoElements(data[..], start, end);
      start == end
    }

    /** `fill()`. */
    function Fill(): (b: bool)
      reads this, data
      requires Valid()
      ensures b <==> |Elements()| == Capacity()
    {
      Ring.FillIffAtCapacity(data[..], start, end);
      Ring.Next(end, data.Length) == start
    }

    /** `size()`. */
    function Size(): (n: nat)
      reads this, data
      requires Valid()
      ensures n == |Elements()| <= Capacity()
    {
      Ring.SizeIsLength(data[..], start, end);
      Ring.Size(data.Length, start, end)
    }

    /** `push(val)`. */
    method Push(v: T)
      requires Valid() && !Fill()
      modifies this, data
      ensures Valid() && data == old(data) && Elements() == old(Elements()) + [v]
    {
      Ring.PushAppends(data[..], start, end, v);
      data[end] := v;
      end := Ring.Next(end, data.Length);
    }

    /** `take()`. */
    method Take() returns (v: T)
      requires Valid() && !Empty()
      modifies this
      ensures Valid() && data == old(data) && v == old(Elements())[0] && Elements() == old(Elements())[1..]
    {
      Ring.TakeRemovesOldest(data[..], start, end);
      v := data[start];
      start := Ring.Next(start, data.Length);
    }

    /**
     * `resize(new_capacity)`: a no-op returning true at the current capacity, false (nothing
     * changed) below the current size, otherwise the elements kept in order under the new
     * capacity. The too-small test is on the capacity; see `Ring.ResizeAsWritten`.
     */
    method Resize(newCap: nat) returns (ok: bool)
      requires Valid()
      modifies this
      ensures Valid()
      ensures ok <==> Ring.Resize(old(data.Length), old(start), old(end), newCap).Accepted?
      ensures ok <==> newCap >= old(|Elements()|)
      ensures ok ==> Capacity() == newCap && Elements() == old(Elements())
      ensures newCap == old(Capacity()) ==> data == old(data) && start == old(start) && end == old(end)
      ensures !ok ==> data == old(data) && start == old(start) && end == old(end)
    {
      Ring.SizeIsLength(data[..], start, end);
      if newCap + 1 == data.Length {
        return true;
      }
      var n := Ring.Size(data.Length, start, end);
      if newCap < n {
        return false;
      }
      var copy := Ring.CopyToFront(data, start, end, newCap + 1);
      data, start, end := copy, 0, n;
      ok := true;
    }
  }

  /** 1, 2, ..., n. */
  function Iota(n: nat): (s: seq<nat>)
    ensures |s| == n && forall i :: 0 <= i < n ==> s[i] == i + 1
  {
    if n == 0 then [] else Iota(n - 1) + [n]
  }

  /**
   * The first ring-buffer test: pushing 1..n into an empty buffer of capacity n gives size i
   * after the i-th push and a full buffer at the end; taking everything yields 1..n in order.
   */
  method FillThenDrain(n: nat) returns (taken: seq<nat>)
    ensures taken == Iota(n)
  {
    var rb := FillUp(n);
    taken := Drain(rb);
  }

  /** Pushes 1..n into a fresh buffer of capacity n, which ends up full. */
  method FillUp(n: nat) returns (rb: FlexRingBuffer<nat>)
    ensures fresh(rb) && rb.Valid() && rb.Elements() == Iota(n) && rb.Fill()
  {
    rb := new FlexRingBuffer<nat>(n);
    var i := 1;
    while i <= n
      invariant 1 <= i <= n + 1
      invariant rb.Valid() && rb.Capacity() == n && rb.Elements() == Iota(i - 1)
      invariant fresh(rb) && fresh(rb.data)
    {
      rb.Push(i);
      i := i + 1;
    }
  }

  /** Takes every element, oldest first, until the buffer is empty. */
  method Drain(rb: FlexRingBuffer<nat>) returns (taken: seq<nat>)
    requires rb.Valid()
    modifies rb
    ensures rb.Valid() && rb.Elements() == [] && taken == old(rb.Elements())
  {
    taken := [];
    while !rb.Empty()
      invariant rb.Valid() && rb.data == old(rb.data)
      invariant taken + rb.Elements() == old(rb.Elements())
      decreases |rb.Elements()|
    {
      ghost var before := rb.Elements();
      var v := rb.Take();
      ShiftOne(taken, before, v, rb.Elements());
      taken := taken + [v];
    }
  }

  /** Moving the oldest element from the buffer to the taken list keeps their concatenation. */
  lemma ShiftOne(taken: seq<nat>, before: seq<nat>, v: nat, after: seq<nat>)
    requires before != [] && v == before[0] && after == before[1..]
    ensures (taken + [v]) + after == taken + before && |after| < |before|
  {
    assert before == [v] + after;
  }

  /** The last resize test: 1 and 2 in a capacity-10 buffer survive a resize to capacity 5. */
  method ResizeKeepsOrder() returns (ok: bool, first: nat, second: nat, emptyAfter: bool)
    ensures ok && first == 1 && second == 2 && emptyAfter
  {
    var rb := new FlexRingBuffer<nat>(10);
    rb.Push(1);
    rb.Push(2);
    assert rb.Elements() == [1, 2];
    ok := rb.Resize(5);
    assert rb.Capacity() == 5 && rb.Size() == 2;
    first := rb.Take();
    assert rb.Elements() == [2];
    second := rb.Take();
    emptyAfter := rb.Empty();
  }

  /** The refused resize of the second test: a full buffer of 10 keeps its size and order. */
  method ResizeBelowSizeRefused() returns (ok: bool, full: bool, first: nat)
    ensures !ok && full && first == 1
  {
    var rb := FillUp(10);
    ok := rb.Resize(5);
    full := rb.Fill();
    assert rb.Elements()[0] == Iota(10)[0] == 1;
    first := rb.Take();
  }
}
