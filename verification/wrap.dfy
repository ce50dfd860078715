/**
 * 32-bit wrapping counters, the packed 64-bit head word of the local run queues, and the
 * slot arithmetic of a ring of LOCAL_QUEUE_CAPACITY cells indexed by `counter & MASK`.
 */
module Wrap {
  const U32: nat := 0x1_0000_0000

  /** `config::LOCAL_QUEUE_CAPACITY`, a power of two (so MASK = CAPACITY - 1 selects the slot). */
  const CAPACITY: nat := 256

  /** `uint32_t` addition. */
  function Add32(a: nat, b: nat): (r: nat)
    requires a < U32 && b < U32
    ensures r < U32 && (r == a + b || r == a + b - U32)
  {
    if a + b < U32 then a + b else a + b - U32
  }

  /** `uint32_t` subtraction. */
  function Sub32(a: nat, b: nat): (r: nat)
    requires a < U32 && b < U32
    ensures r < U32 && (r == a - b || r == a + U32 - b)
  {
    if a >= b then a - b else a + U32 - b
  }

  /** Counting `Sub32(a, b)` steps on from b arrives at a. */
  lemma AddSub(a: nat, b: nat)
    requires a < U32 && b < U32
    ensures Add32(b, Sub32(a, b)) == a
  {
  }

  /** `pack(steal, real)`: steal in the high 32 bits, real in the low 32 bits. */
  function Pack(stealPos: nat, realPos: nat): (h: nat)
    requires stealPos < U32 && realPos < U32
    ensures h < U32 * U32
  {
    stealPos * U32 + realPos
  }

  /** `unpack(head)`: (head >> 32, (uint32_t)head). */
  function Unpack(h: nat): (sr: (nat, nat))
    requires h < U32 * U32
    ensures sr.0 < U32 && sr.1 < U32
  {
    (h / U32, h % U32)
  }

  /** unpack inverts pack. */
  lemma UnpackPack(stealPos: nat, realPos: nat)
    requires stealPos < U32 && realPos < U32
    ensures Unpack(Pack(stealPos, realPos)) == (stealPos, realPos)
  {
    var h := stealPos * U32 + realPos;
    assert h / U32 == stealPos by {
      assert stealPos * U32 <= h < (stealPos + 1) * U32;
    }
  }

  /** pack inverts unpack: every head word is the packing of its halves. */
  lemma PackUnpack(h: nat)
    requires h < U32 * U32
    ensures Pack(Unpack(h).0, Unpack(h).1) == h
  {
  }

  /** The slot a counter selects: `counter & MASK`. */
  function Slot(x: nat): (s: nat)
    ensures s < CAPACITY
  {
    x % CAPACITY
  }

  lemma {:induction false} ShiftByCapacities(x: nat, k: nat)
    ensures Slot(x + CAPACITY * k) == Slot(x)
  {
    if k > 0 {
      ShiftByCapacities(x, k - 1);
      assert x + CAPACITY * k == (x + CAPACITY * (k - 1)) + CAPACITY;
    }
  }

  /** Wrapping at 2^32 does not move the slot, since CAPACITY divides 2^32. */
  lemma WrapKeepsSlot(x: nat)
    ensures Slot(x + U32) == Slot(x)
  {
    ShiftByCapacities(x, U32 / CAPACITY);
  }

  /** The slot of `a + d` (uint32) is d cells on from the slot of a. */
  lemma SlotOfAdd(a: nat, d: nat)
    requires a < U32 && d < U32
    ensures Slot(Add32(a, d)) == Slot(a + d)
  {
    if a + d >= U32 {
      WrapKeepsSlot(a + d - U32);
    }
  }

  /** The slot of a is `a - b` (uint32) cells on from b. */
  lemma SlotOfSub(a: nat, b: nat)
    requires a < U32 && b < U32
    ensures Slot(b + Sub32(a, b)) == Slot(a)
  {
    if a < b {
      WrapKeepsSlot(a);
    }
  }

  /** Fewer than CAPACITY consecutive counters occupy distinct slots. */
  lemma DistinctSlots(x: nat, i: nat, j: nat)
    requires i < j < i + CAPACITY
    ensures Slot(x + i) != Slot(x + j)
  {
  }

  /** Two counters fewer than CAPACITY on from x that share a slot are the same counter. */
  lemma SameSlotSameCounter(x: nat, i: nat, j: nat)
    requires i < CAPACITY && j < CAPACITY && Slot(x + i) == Slot(x + j)
    ensures i == j
  {
  }

  /** The n cells of a ring starting at counter `start`, in order. */
  function View<T>(b: seq<T>, start: nat, n: nat): (v: seq<T>)
    requires |b| == CAPACITY
    ensures |v| == n && forall i :: 0 <= i < n ==> v[i] == b[Slot(start + i)]
  {
    seq(n, i requires 0 <= i < n => b[Slot(start + i)])
  }

  /** Advancing the start counter by k (uint32) drops the first k cells of the view. */
  lemma ViewAdvance<T>(b: seq<T>, start: nat, n: nat, k: nat)
    requires |b| == CAPACITY && start < U32 && k <= n && k < U32
    ensures View(b, Add32(start, k), n - k) == View(b, start, n)[k..]
  {
    var s2 := Add32(start, k);
    var after, before := View(b, s2, n - k), View(b, start, n);
    forall i | 0 <= i < n - k
      ensures after[i] == before[k + i]
    {
      if start + k >= U32 {
        WrapKeepsSlot(s2 + i);
      }
    }
  }

  /** Counters in the same slot stay in the same slot when both advance by i. */
  lemma SameSlotShift(x: nat, y: nat, i: nat)
    requires Slot(x) == Slot(y)
    ensures Slot(x + i) == Slot(y + i)
  {
  }

  /** Writing d >= n cells on from start (d < CAPACITY) leaves the first n cells' view alone. */
  lemma ViewWriteBeyond<T>(b: seq<T>, start: nat, n: nat, d: nat, v: T)
    requires |b| == CAPACITY && n <= d < CAPACITY
    ensures View(b[Slot(start + d) := v], start, n) == View(b, start, n)
  {
    var after, before := View(b[Slot(start + d) := v], start, n), View(b, start, n);
    forall j | 0 <= j < n
      ensures after[j] == before[j]
    {
      DistinctSlots(start, j, d);
    }
  }

  /** Writing the cell just past a view of n < CAPACITY cells extends the view by it. */
  lemma ViewWriteNext<T>(b: seq<T>, start: nat, n: nat, v: T)
    requires |b| == CAPACITY && n < CAPACITY
    ensures View(b[Slot(start + n) := v], start, n + 1) == View(b, start, n) + [v]
  {
    ViewWriteBeyond(b, start, n, n, v);
    var after := View(b[Slot(start + n) := v], start, n + 1);
    assert after[..n] == View(b[Slot(start + n) := v], start, n);
  }

  /** A view of m + k cells is the view of m cells followed by the k cells after them. */
  lemma ViewConcat<T>(b: seq<T>, start: nat, m: nat, k: nat)
    requires |b| == CAPACITY
    ensures View(b, start, m + k) == View(b, start, m) + View(b, start + m, k)
  {
    var whole, tail := View(b, start, m + k), View(b, start + m, k);
    forall j | 0 <= j < k
      ensures whole[m + j] == tail[j]
    {
      assert start + (m + j) == (start + m) + j;
    }
  }

  /** A view only depends on the slot of its start counter. */
  lemma ViewSlotStart<T>(b: seq<T>, x: nat, n: nat)
    requires |b| == CAPACITY
    ensures View(b, Slot(x), n) == View(b, x, n)
  {
    var reduced, whole := View(b, Slot(x), n), View(b, x, n);
    forall i | 0 <= i < n
      ensures reduced[i] == whole[i]
    {
      SameSlotShift(Slot(x), x, i);
    }
  }
}
