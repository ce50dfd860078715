# zedio core, modelled in Dafny

zedio is a C++23 asynchronous runtime built on io_uring and coroutines. The repository also
holds older snapshots under `zed/` and `src/`. Under its syscall, thread and coroutine glue sit
small sequential components. This project models those components and proves what they promise:

- **Byte buffers.** `StreamBuffer` with read and write cursors (`zedio/io/buf/buffer.hpp`), and the older
  muduo-style `TcpBuffer` and `StreamBuffer` (`zed/net/detail/`). Each is a class; the first holds an
  `array`, the two older ones hold their `std::vector<char>` as a sequence field.
- **Ring buffers.** The stack, heap, fixed and flex ring buffers, all sharing one piece of cursor arithmetic (`ring.dfy`).
- **Run queues.** The multi-thread `GlobalQueue` and the `LocalQueue` with a packed (steal, real) head and a tail that wraps at 2^32.
  The older modulo-indexed `LocalQueue`, and the current-thread queues, are modelled too.
  Each method is one atomic step in which every compare-and-swap succeeds. Coroutine handles are opaque task ids.
- **Channels.** The hand-off rules of the two channel implementations: a send or receive pairs with a parked peer, otherwise uses the buffer,
  otherwise parks; closing wakes everyone. Resumed coroutines are recorded in a `scheduled` sequence.
- **Idle workers.** The idle-worker state machine: a packed working/searching counter and a FIFO list of sleepers.
- **Timers.** The hierarchical timing wheels (64 slots per level, an occupancy bitmap, rotation) of both timer generations.
  Also modelled: the timers built on them, and the set-based event timer. The clock is a `now` parameter in milliseconds.
- **Wire codecs.** The length-prefixed RPC framing. The RESP (Redis serialization protocol) commands and the reply
  codec of the Redis client example.
- **Socket addresses.** The field logic of the socket-address classes.
- **Configuration.** Dotted-key flattening of a configuration tree and the two configuration loaders.
- **Tables.** The error-code table and formatter, and the navigation and sidebar trees of the documentation site.

Where the code departs from what it evidently means to do, the model keeps both. The code as written is one
member, and a lemma exhibits an input that shows the difference. The corrected behaviour is another member,
and the rest of the model uses it (see "## Findings").

The documentation site's configuration is followed as the two locale files write it; the `zh` user-guide
sidebar section is headed `API` and links runtime and io.

## Model

| member | source | states |
|---|---|---|
| IoStreamBuffer.FindFrom | zedio/io/buf/buffer.hpp:116 | `string_view::find(str)` from a position: the result is an occurrence and no earlier one exists; none means no occurrence at all |
| IoStreamBuffer.FindCharFrom | zedio/io/buf/buffer.hpp:126 | `string_view::find(c)`: the result holds c and no earlier byte does; none means no byte equals c |
| IoStreamBuffer.StreamBuffer.constructor | zedio/io/buf/buffer.hpp:16-17 | a fresh buffer of `size` bytes with both cursors at 0 |
| IoStreamBuffer.StreamBuffer.Capacity | zedio/io/buf/buffer.hpp:91-93 | the storage size, which is the bytes already read, the unread ones and the free ones together |
| IoStreamBuffer.StreamBuffer.RRemaining | zedio/io/buf/buffer.hpp:40-43 | the number of unread bytes, w_pos - r_pos |
| IoStreamBuffer.StreamBuffer.WRemaining | zedio/io/buf/buffer.hpp:65-68 | the free bytes after the write cursor, size - w_pos |
| IoStreamBuffer.StreamBuffer.Empty | zedio/io/buf/buffer.hpp:85-88 | true exactly when nothing is unread |
| IoStreamBuffer.StreamBuffer.ResetData | zedio/io/buf/buffer.hpp:20-25 | the unread bytes move to the front unchanged; r_pos becomes 0 and w_pos the old unread count |
| IoStreamBuffer.StreamBuffer.Disable | zedio/io/buf/buffer.hpp:27-29 | the storage becomes empty and the cursors are left alone, so the cursor invariant survives only when w_pos was 0 |
| IoStreamBuffer.StreamBuffer.ResetPos | zedio/io/buf/buffer.hpp:31-33 | both cursors return to 0 over the same storage |
| IoStreamBuffer.StreamBuffer.RIncrease | zedio/io/buf/buffer.hpp:35-38 | consumes n unread bytes (the assert r_pos <= w_pos is the precondition); the unread data loses its first n bytes |
| IoStreamBuffer.StreamBuffer.WIncrease | zedio/io/buf/buffer.hpp:60-63 | commits n bytes already in the free area; the unread data grows by exactly those bytes |
| IoStreamBuffer.StreamBuffer.WriteTo | zedio/io/buf/buffer.hpp:95-104 | copies min(unread, dst size) bytes to the front of dst, leaves the rest of dst and the storage alone, consumes them, and resets both cursors when nothing is left |
| IoStreamBuffer.StreamBuffer.ReadFrom | zedio/io/buf/buffer.hpp:106-112 | copies min(free, src size) bytes of src at the write cursor; the bytes before the write cursor and after the copied ones are unchanged, and the unread data grows by that prefix of src |
| IoStreamBuffer.StreamBuffer.FindFlagAndReturnSlice | zedio/io/buf/buffer.hpp:114-122 | empty when the flag does not occur in the unread bytes; otherwise the unread prefix ending with the first occurrence |
| IoStreamBuffer.StreamBuffer.FindCharAndReturnSlice | zedio/io/buf/buffer.hpp:124-132 | empty exactly when no unread byte is c; otherwise the unread prefix ending at the first c, with no c before it |
| Ring.Next | zedio/common/util/ring_buffer.hpp:76-77 | the cursor step `(i + 1) % slots` stays inside the ring |
| Ring.Size | zedio/common/util/ring_buffer.hpp:110-112 | the element count of a ring is below its number of cells |
| Ring.SizeFormula | zedio/common/util/ring_buffer.hpp:110-112 | the count equals the source's formula `(end - start + slots) % slots` |
| Ring.SizeIsLength | zedio/common/util/ring_buffer.hpp:109-117 | the count is the number of live elements, so size never exceeds capacity = slots - 1 |
| Ring.EmptyIffNoElements | zedio/common/util/ring_buffer.hpp:62-65 | `start == end` exactly when no element is stored |
| Ring.FillIffAtCapacity | zedio/common/util/ring_buffer.hpp:67-70 | `(end + 1) % slots == start` exactly when slots - 1 elements are stored |
| Ring.PushAppends | zedio/common/util/ring_buffer.hpp:94-95 | writing at end and advancing it appends the value after the existing elements |
| Ring.TakeRemovesOldest | zedio/common/util/ring_buffer.hpp:104-106 | reading at start and advancing it yields the oldest element and leaves the rest in order |
| Ring.ResizeAsWritten | zedio/common/util/ring_buffer.hpp:120-141 | the resize index arithmetic as written, shared with FlexRingBuffer's `resize` in zedio/common/container/ring_buffer.hpp:92-114: accepted resizes always have new_size + 1 cells |
| Ring.ResizeAsWrittenAcceptsTooSmall | zedio/common/util/ring_buffer.hpp:121-127 | five elements in six cells: a request for capacity 4 is accepted and sets end to 5 in a 5-cell ring |
| Ring.ResizeAsWrittenKeepsStaleCursors | zedio/common/util/ring_buffer.hpp:128-139 | an empty ring with both cursors at 4 shrunk to 3 cells keeps its cursors at 4, outside the new storage |
| Ring.Resize | zedio/common/util/ring_buffer.hpp:119-141 | the intended resize: refused exactly when the new capacity is below the size; accepted cursors lie inside the new ring and keep the count |
| Ring.CopyToFront | zedio/common/util/ring_buffer.hpp:128-138 | the new storage of `slots` cells begins with the live elements in order |
| Ring.CopyWrapped | zedio/common/util/ring_buffer.hpp:133-136 | the two copies of a wrapped ring put `[start, slots)` and then `[0, end)` back to back |
| Ring.CopyRange | zedio/common/util/ring_buffer.hpp:130 | one `std::copy`: the target range equals the source range and cells before it are untouched |
| UtilRingBuffer.StackRingBuffer.constructor | zedio/common/util/ring_buffer.hpp:49-52 | SIZE + 1 cells, capacity SIZE, no elements |
| UtilRingBuffer.StackRingBuffer.IsEmpty | zedio/common/util/ring_buffer.hpp:17-20 | true exactly when no element is stored |
| UtilRingBuffer.StackRingBuffer.IsFill | zedio/common/util/ring_buffer.hpp:22-25 | true exactly when SIZE elements are stored |
| UtilRingBuffer.StackRingBuffer.Size | zedio/common/util/ring_buffer.hpp:39-42 | the number of stored elements, at most SIZE |
| UtilRingBuffer.StackRingBuffer.Push | zedio/common/util/ring_buffer.hpp:27-30 | unchecked push (the caller ensures room): the value joins the back |
| UtilRingBuffer.StackRingBuffer.Take | zedio/common/util/ring_buffer.hpp:32-37 | unchecked take (the caller ensures an element): the oldest element leaves and is returned |
| UtilRingBuffer.HeapRingBuffer.constructor | zedio/common/util/ring_buffer.hpp:59-60 | `size + 1` cells, capacity `size`, no elements |
| UtilRingBuffer.HeapRingBuffer.Capacity | zedio/common/util/ring_buffer.hpp:115-117 | one cell fewer than the vector, never below the count of elements between the cursors (`Ring.Size`, the element count by Ring.SizeIsLength) |
| UtilRingBuffer.HeapRingBuffer.IsEmpty | zedio/common/util/ring_buffer.hpp:62-65 | true exactly when no element is stored |
| UtilRingBuffer.HeapRingBuffer.IsFill | zedio/common/util/ring_buffer.hpp:67-70 | true exactly when the size equals the capacity |
| UtilRingBuffer.HeapRingBuffer.Size | zedio/common/util/ring_buffer.hpp:109-112 | the number of stored elements, at most the capacity |
| UtilRingBuffer.HeapRingBuffer.SafetyPush | zedio/common/util/ring_buffer.hpp:72-78 | with the asserted room, the value joins the back |
| UtilRingBuffer.HeapRingBuffer.SafetyPop | zedio/common/util/ring_buffer.hpp:80-86 | with the asserted element, the oldest leaves and is returned |
| UtilRingBuffer.HeapRingBuffer.Push | zedio/common/util/ring_buffer.hpp:88-97 | false and nothing changed when full; otherwise true and the value appended |
| UtilRingBuffer.HeapRingBuffer.Pop | zedio/common/util/ring_buffer.hpp:99-107 | none and nothing changed when empty; otherwise the oldest element, removed (FIFO) |
| UtilRingBuffer.HeapRingBuffer.Resize | zedio/common/util/ring_buffer.hpp:119-141 | corrected `resize` (see Findings): true exactly when the new capacity holds the elements; then the capacity is the new one and the elements are kept in order; false changes nothing |
| ContainerRingBuffer.FixedRingBuffer.constructor | zedio/common/container/ring_buffer.hpp:47-50 | SIZE + 1 cells, capacity SIZE, no elements |
| ContainerRingBuffer.FixedRingBuffer.Empty | zedio/common/container/ring_buffer.hpp:15-18 | true exactly when no element is stored |
| ContainerRingBuffer.FixedRingBuffer.Fill | zedio/common/container/ring_buffer.hpp:20-23 | true exactly when SIZE elements are stored |
| ContainerRingBuffer.FixedRingBuffer.Size | zedio/common/container/ring_buffer.hpp:37-40 | the number of stored elements, at most SIZE |
| ContainerRingBuffer.FixedRingBuffer.Push | zedio/common/container/ring_buffer.hpp:25-28 | unchecked push: the value joins the back |
| ContainerRingBuffer.FixedRingBuffer.Take | zedio/common/container/ring_buffer.hpp:30-35 | unchecked take: the oldest element leaves and is returned |
| ContainerRingBuffer.FlexRingBuffer.constructor | zedio/common/container/ring_buffer.hpp:57-58 | capacity equals the constructor argument; no elements |
| ContainerRingBuffer.FlexRingBuffer.Capacity | zedio/common/container/ring_buffer.hpp:88-90 | one cell fewer than the vector, never below the count of elements between the cursors (`Ring.Size`, the element count by Ring.SizeIsLength) |
| ContainerRingBuffer.FlexRingBuffer.Empty | zedio/common/container/ring_buffer.hpp:60-63 | true exactly when no element is stored |
| ContainerRingBuffer.FlexRingBuffer.Fill | zedio/common/container/ring_buffer.hpp:65-68 | true exactly when the size equals the capacity |
| ContainerRingBuffer.FlexRingBuffer.Size | zedio/common/container/ring_buffer.hpp:82-85 | the number of stored elements, at most the capacity |
| ContainerRingBuffer.FlexRingBuffer.Push | zedio/common/container/ring_buffer.hpp:70-73 | unchecked push: the value joins the back |
| ContainerRingBuffer.FlexRingBuffer.Take | zedio/common/container/ring_buffer.hpp:75-80 | unchecked take: the oldest element leaves and is returned, in push order across wrap-around |
| ContainerRingBuffer.FlexRingBuffer.Resize | zedio/common/container/ring_buffer.hpp:92-114 | corrected `resize` (see Findings): true at the current capacity with nothing changed; false below the size with nothing changed; otherwise the new capacity with the elements kept in order |
| ContainerRingBuffer.Iota | tests/ring_buffer_test.cpp:14-17 | the pushed values 1..n |
| ContainerRingBuffer.FillUp | tests/ring_buffer_test.cpp:12-18 | pushing 1..n into an empty buffer of capacity n stores 1..n and fills it |
| ContainerRingBuffer.Drain | tests/ring_buffer_test.cpp:28-34 | taking until empty yields the stored elements in order |
| ContainerRingBuffer.FillThenDrain | tests/ring_buffer_test.cpp:11-35 | a full buffer of 1..n drains to exactly 1..n |
| ContainerRingBuffer.ResizeKeepsOrder | tests/ring_buffer_test.cpp:77-84 | 1 and 2 survive a resize of a capacity-10 buffer to 5 and come out in order, leaving it empty |
| ContainerRingBuffer.ResizeBelowSizeRefused | tests/ring_buffer_test.cpp:58-65 | resizing a full buffer of 10 to 5 is refused, the buffer stays full, and 1 comes out first |
| ZedTcpBuffer.CopyInto | zed/net/detail/tcp_buffer.hpp:60 | `memcpy` into the vector: the target range holds the source and every other byte is unchanged |
| ZedTcpBuffer.Resize | zed/net/detail/tcp_buffer.hpp:83 | `std::vector::resize(n)`: length n, a prefix when shrinking, the old contents first when growing |
| ZedTcpBuffer.ExpandAsWritten | zed/net/detail/tcp_buffer.hpp:81-90 | `expand` as written (resize when writeable < prependable, else move `writeable_bytes()` bytes to the front) keeps the indices ordered |
| ZedTcpBuffer.AppendAsWritten | zed/net/detail/tcp_buffer.hpp:56-62 | `append` as written keeps the indices ordered whenever its copy stays inside the vector |
| ZedTcpBuffer.AppendAsWrittenKeepsStaleByte | zed/net/detail/tcp_buffer.hpp:81-90 | readable "de" at read 3, write 5 of 8 bytes, plus "WXYZ", reads "defWXYZ": one stale byte between old and new data |
| ZedTcpBuffer.AppendAsWrittenOverflows | zed/net/detail/tcp_buffer.hpp:56-62 | with read 1, write 4 of 8 bytes, appending 6 bytes compacts without making room, so the copy runs past the vector |
| ZedTcpBuffer.TcpBuffer.constructor | zed/net/detail/tcp_buffer.hpp:17-18 | a vector of the initial size with nothing readable |
| ZedTcpBuffer.TcpBuffer.ReadableBytes | zed/net/detail/tcp_buffer.hpp:20-24 | the length of the readable region, under the asserted write > read |
| ZedTcpBuffer.TcpBuffer.WriteableBytes | zed/net/detail/tcp_buffer.hpp:26-29 | the bytes after the write index |
| ZedTcpBuffer.TcpBuffer.PrependableBytes | zed/net/detail/tcp_buffer.hpp:31-34 | the bytes before the read index |
| ZedTcpBuffer.TcpBuffer.AsString | zed/net/detail/tcp_buffer.hpp:74-78 | exactly the readable region |
| ZedTcpBuffer.TcpBuffer.HasWritten | zed/net/detail/tcp_buffer.hpp:51-54 | under len <= writeable, the write index advances by len and the readable data grows by those bytes |
| ZedTcpBuffer.TcpBuffer.RetrieveAll | zed/net/detail/tcp_buffer.hpp:72 | both indices return to 0 |
| ZedTcpBuffer.TcpBuffer.Retrieve | zed/net/detail/tcp_buffer.hpp:64-70 | len below the readable count consumes len bytes; otherwise both indices return to 0 |
| ZedTcpBuffer.TcpBuffer.Expand | zed/net/detail/tcp_buffer.hpp:81-90 | corrected expand, with two changes: it grows when the writeable and prependable space together is below len (not when writeable < prependable), and it compacts the readable bytes (not `writeable_bytes()` of them); the readable bytes are kept and at least len bytes become writeable |
| ZedTcpBuffer.TcpBuffer.Append | zed/net/detail/tcp_buffer.hpp:56-62 | the readable region becomes the old readable bytes followed by data |
| ZedStreamBuffer.ExpandAsWritten | zed/net/detail/stream_buffer.hpp:81-90 | `expand` as written (resize when writeable + prependable < len, else move `writeable_bytes()` bytes) keeps the indices ordered |
| ZedStreamBuffer.IncreaseReadIndexAsWritten | zed/net/detail/stream_buffer.hpp:64-70 | the read-index step as written keeps the indices ordered; none where `readable_bytes` asserts |
| ZedStreamBuffer.AppendAsWritten | zed/net/detail/stream_buffer.hpp:56-62 | `append` as written, which calls `increase_read_index` after the copy, keeps the indices ordered when it does not fail |
| ZedStreamBuffer.AppendAsWrittenDropsData | zed/net/detail/stream_buffer.hpp:56-62 | appending "xy" behind readable "ab" leaves nothing readable |
| ZedStreamBuffer.AppendAsWrittenAssertsOnEmpty | zed/net/detail/stream_buffer.hpp:20-24 | appending to an empty buffer reaches the `write_index_ > read_index_` assert |
| ZedStreamBuffer.ExpandAsWrittenKeepsStaleByte | zed/net/detail/stream_buffer.hpp:84-89 | compacting readable "de" copies three bytes, so "def" reads as readable |
| ZedStreamBuffer.StreamBuffer.constructor | zed/net/detail/stream_buffer.hpp:17-18 | a vector of the initial size with nothing readable |
| ZedStreamBuffer.StreamBuffer.ReadableBytes | zed/net/detail/stream_buffer.hpp:20-24 | the length of the readable region, under the asserted write > read |
| ZedStreamBuffer.StreamBuffer.WriteableBytes | zed/net/detail/stream_buffer.hpp:26-29 | the bytes after the write index |
| ZedStreamBuffer.StreamBuffer.PrependableBytes | zed/net/detail/stream_buffer.hpp:31-34 | the bytes before the read index |
| ZedStreamBuffer.StreamBuffer.AsString | zed/net/detail/stream_buffer.hpp:74-78 | exactly the readable region |
| ZedStreamBuffer.StreamBuffer.IncreaseWriteIndex | zed/net/detail/stream_buffer.hpp:51-54 | under len <= writeable, the write index advances by len and the readable data grows by those bytes |
| ZedStreamBuffer.StreamBuffer.Reset | zed/net/detail/stream_buffer.hpp:72 | both indices return to 0 |
| ZedStreamBuffer.StreamBuffer.IncreaseReadIndex | zed/net/detail/stream_buffer.hpp:64-70 | len below the readable count consumes len bytes; otherwise both indices return to 0 |
| ZedStreamBuffer.StreamBuffer.Expand | zed/net/detail/stream_buffer.hpp:81-90 | corrected expand: the readable bytes are kept and at least len bytes become writeable |
| ZedStreamBuffer.StreamBuffer.Append | zed/net/detail/stream_buffer.hpp:56-62 | corrected append: the readable region becomes the old readable bytes followed by data |
| Wrap.Add32 | zedio/async/queue.hpp:145 | `uint32_t` addition: the sum, less 2^32 when it overflows |
| Wrap.Sub32 | zedio/async/queue.hpp:116 | `uint32_t` subtraction: the difference, plus 2^32 when it would be negative |
| Wrap.AddSub | zedio/async/queue.hpp:245-250 | counting `tail - real` (u32) steps on from real arrives at tail |
| Wrap.Pack | zedio/async/queue.hpp:328-331 | `pack(steal, real)` fits in 64 bits |
| Wrap.Unpack | zedio/async/queue.hpp:323-326 | `unpack` yields two 32-bit halves |
| Wrap.UnpackPack | zedio/async/queue.hpp:323-331 | `unpack(pack(s, r)) == (s, r)`: steal in the high half, real in the low half |
| Wrap.PackUnpack | zedio/async/queue.hpp:323-331 | every head word is the packing of its two halves |
| Wrap.Slot | zedio/async/queue.hpp:143 | `counter & MASK` selects one of CAPACITY cells |
| Wrap.SlotOfAdd | zedio/async/queue.hpp:143-146 | wrapping at 2^32 does not move the selected cell, since CAPACITY divides 2^32 |
| Wrap.SlotOfSub | zedio/async/queue.hpp:112-116 | the cell of tail is `tail - real` (u32) cells on from real |
| AsyncQueue.GlobalQueue.constructor | zedio/async/queue.hpp:94-97 | no tasks, counter 0, open |
| AsyncQueue.GlobalQueue.Size | zedio/async/queue.hpp:22-25 | the counter equals the number of queued tasks |
| AsyncQueue.GlobalQueue.Empty | zedio/async/queue.hpp:27-30 | true exactly when no task is queued |
| AsyncQueue.GlobalQueue.IsClosed | zedio/async/queue.hpp:88-91 | the closed flag |
| AsyncQueue.GlobalQueue.Push | zedio/async/queue.hpp:32-39 | nothing changes once closed; otherwise the task joins the back |
| AsyncQueue.GlobalQueue.PushBatch | zedio/async/queue.hpp:41-48 | nothing changes once closed; otherwise the batch joins the back in order |
| AsyncQueue.GlobalQueue.Pop | zedio/async/queue.hpp:50-60 | none exactly when empty; otherwise the oldest task, removed |
| AsyncQueue.GlobalQueue.PopN | zedio/async/queue.hpp:62-75 | n is clamped to the size; that many tasks leave the front and are returned in order |
| AsyncQueue.GlobalQueue.Close | zedio/async/queue.hpp:77-85 | true only for the call that closes the queue; the tasks stay |
| AsyncQueue.LocalQueue.Head | zedio/async/queue.hpp:334 | the packed head word unpacks to (steal, real) |
| AsyncQueue.LocalQueue.Size | zedio/async/queue.hpp:111-117 | `tail - real` (u32), at most CAPACITY |
| AsyncQueue.LocalQueue.Elements | zedio/async/queue.hpp:111-117 | the queued tasks number exactly `size()` |
| AsyncQueue.LocalQueue.constructor | zedio/async/queue.hpp:334-337 | all counters 0 and no tasks |
| AsyncQueue.LocalQueue.RemainingSlots | zedio/async/queue.hpp:102-109 | CAPACITY - (tail - steal), which leaves room for at least the queued tasks |
| AsyncQueue.LocalQueue.Capacity | zedio/async/queue.hpp:125-127 | CAPACITY cells, an even number that divides 2^32, so a `uint32_t` counter wraps onto the same cell |
| AsyncQueue.LocalQueue.Empty | zedio/async/queue.hpp:119-122 | true exactly when no task is queued |
| AsyncQueue.LocalQueue.PushBackFinish | zedio/async/queue.hpp:278-283 | storing at `tail & MASK` and advancing tail appends the task |
| AsyncQueue.LocalQueue.PushBatch | zedio/async/queue.hpp:129-151 | refused (the source throws) exactly when tail - steal exceeds CAPACITY - len; otherwise the batch is appended in order |
| AsyncQueue.LocalQueue.PushBackOrOverflow | zedio/async/queue.hpp:153-176 | with room the task is appended; during a steal it goes to the global queue; otherwise the CAPACITY/2 oldest tasks and then it go to the global queue |
| AsyncQueue.LocalQueue.PushOverflow | zedio/async/queue.hpp:285-308 | the CAPACITY/2 oldest tasks, then the task, are appended to the global queue and leave the local one |
| AsyncQueue.LocalQueue.Pop | zedio/async/queue.hpp:178-198 | none exactly when empty; otherwise the oldest task, with steal following real when they were equal |
| AsyncQueue.LocalQueue.StealInto2 | zedio/async/queue.hpp:230-276 | unless a steal is in progress, the older half (rounded up) leaves this queue and is copied into dst's free cells; dst's own tasks are untouched |
| AsyncQueue.LocalQueue.Claim | zedio/async/queue.hpp:250-275 | real advances by n and steal catches up; the first n tasks leave |
| AsyncQueue.LocalQueue.StealInto | zedio/async/queue.hpp:200-227 | refuses when dst holds more than CAPACITY/2; otherwise the last stolen task is returned and the others extend dst in order |
| AsyncQueue.LocalQueue.StealHalf | zedio/async/queue.hpp:212-226 | once dst is at most half full: the same result as `steal_into` |
| AsyncQueue.LocalQueue.TakeStolen | zedio/async/queue.hpp:217-225 | the last of n copied tasks is the result and dst's tail advances over the other n - 1 |
| AsyncQueue.TailAdvance | zedio/async/queue.hpp:219-224 | advancing dst's tail by fewer than CAPACITY/2 grows both distances by exactly that much |
| AsyncQueue.CopyCells | zedio/async/queue.hpp:259-264 | the copy loop moves n tasks, in order, into dst's cells from dst_tail on, keeping dst's tasks when they fit |
| AsyncQueue.StolenCells | zedio/async/queue.hpp:218-221 | the last copied task sits n - 1 cells past dst's tasks, and the ones before it extend dst's tasks |
| AsyncQueue.StealTaken | zedio/async/queue.hpp:200-227 | how many tasks `steal_into` takes: none exactly when dst is over half full, a steal is in progress or the source is empty |
| AsyncQueue.StealCount | zedio/async/queue.hpp:245-246 | `n - n / 2`: at least half and at most all, and at least one when there is one |
| AsyncQueue.OverflowScenario | tests/queue_test.cpp:13-29 | CAPACITY + CAPACITY/2 + 1 pushes leave CAPACITY tasks locally and CAPACITY/2 + 1 globally |
| ZedQueue.WrappingAdd | zed/async/queue.hpp:211-215 | `(a + b) % CAPACITY` in u32 arithmetic: a cell number, the cell of a + b |
| ZedQueue.WrappingSub | zed/async/queue.hpp:217-221 | `(a + CAPACITY - b) % CAPACITY`: below CAPACITY, and that many steps from b reach a |
| ZedQueue.WrappingSubUnique | zed/async/queue.hpp:217-221 | fewer than CAPACITY steps from b to a are determined by a and b |
| ZedQueue.PopStep | zed/async/queue.hpp:85-104 | taking the cell at real and advancing it drops the oldest task and shrinks the size by one |
| ZedQueue.PopSize | zed/async/queue.hpp:95 | advancing real when it differs from tail shrinks `wrapping_sub(tail, real)` by one |
| ZedQueue.PushStep | zed/async/queue.hpp:181-184 | storing at tail and advancing it appends the task, except that the size wraps from CAPACITY - 1 to 0 |
| ZedQueue.PushSize | zed/async/queue.hpp:183 | advancing tail grows the size by one, with CAPACITY - 1 wrapping to 0 |
| ZedQueue.CapacityTestAlwaysHolds | zed/async/queue.hpp:65-78 | `wrapping_sub(tail, steal) < CAPACITY` always holds, so the spill branches never run and the `push_overflow` assert could never hold |
| ZedQueue.LocalQueue.Size | zed/async/queue.hpp:28-33 | `wrapping_sub(tail, real)`, always below CAPACITY |
| ZedQueue.LocalQueue.Elements | zed/async/queue.hpp:28-33 | the tasks `pop` will return number exactly `size()` |
| ZedQueue.LocalQueue.RemainingSlots | zed/async/queue.hpp:20-26 | CAPACITY - `wrapping_sub(tail, steal)`, between 1 and CAPACITY |
| ZedQueue.LocalQueue.Empty | zed/async/queue.hpp:35-38 | true exactly when `pop` has nothing to return |
| ZedQueue.LocalQueue.constructor | zed/async/queue.hpp:235-237 | all counters 0 and no tasks |
| ZedQueue.LocalQueue.PushBackFinish | zed/async/queue.hpp:181-184 | the task lands in the tail cell; the size grows by one, wrapping CAPACITY - 1 to 0; below that the task is appended |
| ZedQueue.LocalQueue.PushBackOrOverflow | zed/async/queue.hpp:59-82 | always stores locally (by CapacityTestAlwaysHolds), with the same size and order as PushBackFinish |
| ZedQueue.LocalQueue.Pop | zed/async/queue.hpp:84-104 | none exactly when the size reads 0; otherwise the oldest task, removed |
| ZedQueue.LocalQueue.PushBack | zed/async/queue.hpp:45-57 | the batch is stored from tail on and is appended when the total stays below CAPACITY |
| ZedQueue.LocalQueue.StealInto2 | zed/async/queue.hpp:135-179 | unless a steal is in progress, the older half (rounded up) leaves and is copied into dst from dst_tail on |
| ZedQueue.LocalQueue.Claim | zed/async/queue.hpp:154-176 | real advances by n and steal catches up; the first n tasks leave |
| ZedQueue.LocalQueue.StealInto | zed/async/queue.hpp:106-132 | refuses when dst's `wrapping_sub(tail, steal)` exceeds CAPACITY/2; otherwise returns the last stolen task and, when they fit, the others extend dst |
| ZedQueue.LocalQueue.TakeStolen | zed/async/queue.hpp:124-131 | the last of n stolen tasks is the result and dst's tail advances over the other n - 1 |
| ZedQueue.PushCapacityLosesAll | zed/async/queue.hpp:28-33 | CAPACITY pushes into an empty queue leave a size of 0, so `pop` reaches none of the tasks |
| CurrentThread.GlobalQueue.constructor | zedio/runtime/current_thread/queue.hpp:86-88 | no tasks and not closed |
| CurrentThread.GlobalQueue.Push | zedio/runtime/current_thread/queue.hpp:14-20 | a closed queue is left unchanged; otherwise the task joins the back |
| CurrentThread.GlobalQueue.PushBatch | zedio/runtime/current_thread/queue.hpp:22-28 | a closed queue is left unchanged; otherwise the whole list joins the back in order |
| CurrentThread.GlobalQueue.Pop | zedio/runtime/current_thread/queue.hpp:30-46 | none exactly when closed or empty (a closed queue keeps its tasks); otherwise the front task, removed |
| CurrentThread.GlobalQueue.PopAll | zedio/runtime/current_thread/queue.hpp:48-57 | once closed: empty and nothing removed; otherwise every task in order, leaving the queue empty |
| CurrentThread.GlobalQueue.Close | zedio/runtime/current_thread/queue.hpp:59-66 | true exactly for the call that closes the queue; the tasks stay |
| CurrentThread.GlobalQueue.IsClosed | zedio/runtime/current_thread/queue.hpp:68-71 | the closed flag |
| CurrentThread.GlobalQueue.Empty | zedio/runtime/current_thread/queue.hpp:73-77 | true exactly when no task is queued |
| CurrentThread.GlobalQueue.Size | zedio/runtime/current_thread/queue.hpp:79-83 | the number of queued tasks, 0 exactly when empty |
| CurrentThread.LocalQueue.constructor | zedio/runtime/current_thread/queue.hpp:128 | no tasks |
| CurrentThread.LocalQueue.PushBackOrOverflow | zedio/runtime/current_thread/queue.hpp:93-95 | the task is appended and the global queue is not touched: nothing overflows |
| CurrentThread.LocalQueue.Push | zedio/runtime/current_thread/queue.hpp:97-99 | the task is appended |
| CurrentThread.LocalQueue.PushBatch | zedio/runtime/current_thread/queue.hpp:101-105 | the handles are appended in list order |
| CurrentThread.LocalQueue.Pop | zedio/runtime/current_thread/queue.hpp:107-115 | none exactly when empty; otherwise the front task, removed |
| CurrentThread.LocalQueue.Size | zedio/runtime/current_thread/queue.hpp:117-120 | the number of queued tasks, 0 exactly when empty |
| CurrentThread.LocalQueue.Empty | zedio/runtime/current_thread/queue.hpp:122-125 | true exactly when no task is queued |
| CurrentThread.Queue.constructor | zedio/runtime/current_thread.hpp:55-57 | no tasks, counter 0, open |
| CurrentThread.Queue.Size | zedio/runtime/current_thread.hpp:15-17 | the counter equals the number of queued tasks |
| CurrentThread.Queue.Empty | zedio/runtime/current_thread.hpp:20-22 | the zero counter means exactly that no task is queued |
| CurrentThread.Queue.Push | zedio/runtime/current_thread.hpp:24-30 | ignored once closed; otherwise appended, with the counter kept equal to the length |
| CurrentThread.Queue.Pop | zedio/runtime/current_thread.hpp:33-41 | none exactly when empty, closed or not; otherwise the front task, with the counter kept in step |
| CurrentThread.Queue.Close | zedio/runtime/current_thread.hpp:43-47 | closed afterwards, the tasks unchanged; closing twice equals closing once |
| CurrentThread.Queue.IsClosed | zedio/runtime/current_thread.hpp:50-52 | the closed flag |
| CurrentThread.Shared.constructor | zedio/runtime/current_thread.hpp:60-64 | an empty, open queue |
| CurrentThread.Shared.NextTask | zedio/runtime/current_thread.hpp:72-77 | none exactly when the queue is empty; otherwise its front task, removed |
| CurrentThread.Shared.Close | zedio/runtime/current_thread.hpp:79-81 | the queue is closed and keeps its tasks |
| CurrentThread.FifoThenClosedScenario | zedio/runtime/current_thread.hpp:24-81 | tasks come out in push order, a push after close is dropped, and a closed queue still drains what it held |
| CurrentThread.ClosedGlobalScenario | zedio/runtime/current_thread/queue.hpp:30-66 | a closed global queue hands out nothing by pop or pop_all though a task remains, and only the first close returns true |
| SyncChannel.SendAwaiter.constructor | zedio/sync/channel/channel.hpp:13-15 | a new send awaiter holds its value and reports ClosedChannel until a path marks it successful (also line 52) |
| SyncChannel.RecvAwaiter.constructor | zedio/sync/channel/channel.hpp:57-58 | a new receive awaiter reports ClosedChannel until a value reaches it (also line 93) |
| SyncChannel.Decrement | zedio/sync/channel/channel.hpp:121 | `fetch_sub(1)` on a `size_t`: one less, modulo 2^64 |
| SyncChannel.Increment | zedio/sync/channel/channel.hpp:117 | `fetch_add(1)` on a `size_t`: one more modulo 2^64, undone by Decrement |
| SyncChannel.ParkedHandles | zedio/sync/channel/channel.hpp:139-144 | the two scheduling loops hand on every parked sender, then every parked receiver, in list order |
| SyncChannel.Channel.constructor | zedio/sync/channel/channel.hpp:100-103 | the given counts, an empty buffer of capacity cap, no parked awaiters, open |
| SyncChannel.Channel.SendSuspend | zedio/sync/channel/channel.hpp:21-43 | a parked receiver gets the value and is scheduled; else a non-full buffer takes it, closed or not; else the sender parks when open or finishes with ClosedChannel when closed; parked awaiters only ever wait on a full (senders) or empty (receivers) buffer |
| SyncChannel.Channel.RecvSuspendAsWritten | zedio/sync/channel/channel.hpp:64-85 | as written: a parked sender's value is taken first, even with older values buffered; else the oldest buffered value; else park when open, ClosedChannel when closed |
| SyncChannel.Channel.RecvSuspend | zedio/sync/channel/channel.hpp:64-85 | first-in first-out: the oldest buffered value, with the oldest parked sender's value taking the freed cell; a direct hand-off only when nothing is buffered; else park or ClosedChannel as written |
| SyncChannel.Channel.Refill | zedio/sync/channel/channel.hpp:67-72 | the oldest parked sender's value joins the buffer, the sender succeeds and is scheduled |
| SyncChannel.Channel.AddSender | zedio/sync/channel/channel.hpp:116-118 | the sender count goes up by one; nothing else changes |
| SyncChannel.Channel.AddReceiver | zedio/sync/channel/channel.hpp:126-128 | the receiver count goes up by one; nothing else changes |
| SyncChannel.Channel.Destroy | zedio/sync/channel/channel.hpp:137-148 | acts once: closes, schedules every parked sender then every parked receiver, and clears both lists; later calls change nothing |
| SyncChannel.Channel.SubSender | zedio/sync/channel/channel.hpp:120-124 | the sender count drops by one; the channel is closed exactly when it was already or the count went from 1 to 0; on that last decrement both parked lists are emptied and, unless it was already closed, every parked sender and then every parked receiver is scheduled (lines 137-149); otherwise the lists and `scheduled` are unchanged |
| SyncChannel.Channel.SubReceiverAsWritten | zedio/sync/channel/channel.hpp:130-134 | as written: the sender count drops and the receiver count is untouched; when the sender count went from 1 to 0 the channel is destroyed as by SubSender (lists emptied, parked handles scheduled), otherwise the lists and `scheduled` are unchanged |
| SyncChannel.Channel.SubReceiver | zedio/sync/channel/channel.hpp:130-134 | the receiver count drops by one; the last receiver to leave closes the channel, empties both parked lists and, unless it was already closed, schedules every parked sender and then every parked receiver (lines 137-149); otherwise the lists and `scheduled` are unchanged |
| SyncChannel.ReceiverLeavesScenario | zedio/sync/channel/channel.hpp:130-134 | with one sender and two receivers, one receiver leaving closes the channel and the sender's next send fails with ClosedChannel |
| SyncChannel.ReceiverLeavesCorrectedScenario | zedio/sync/channel/channel.hpp:130-134 | with the receiver count decremented, the channel stays open with one sender and one receiver |
| SyncChannel.RecvOutOfOrderScenario | zedio/sync/channel/channel.hpp:64-85 | capacity 1, send 1, send 2, receive: as written the receiver gets 2 while 1 stays buffered |
| SyncChannel.RecvInOrderScenario | zedio/sync/channel/channel.hpp:64-85 | the same steps in first-in first-out order give 1, leave 2 buffered and complete the parked sender |
| AsyncChannel.Data.constructor | zedio/async/channel.hpp:18-23 | a reader's record starts empty, a writer's with its value; no wake-up pending (also lines 27-28, 93-94) |
| AsyncChannel.Handles | zedio/async/channel.hpp:191-198 | the coroutine handles of the parked records, front first |
| AsyncChannel.ParkedHandles | zedio/async/channel.hpp:191-198 | the two loops of `close` hand on every parked reader, then every parked writer, in queue order |
| AsyncChannel.Channel.constructor | zedio/async/channel.hpp:156-157 | an empty buffer of the given capacity, nobody parked, open |
| AsyncChannel.Channel.Capacity | zedio/async/channel.hpp:175-178 | the buffer's capacity |
| AsyncChannel.Channel.Size | zedio/async/channel.hpp:180-184 | the number of buffered values, never above the capacity |
| AsyncChannel.Channel.ReadSuspend | zedio/async/channel.hpp:34-61 | closed: resume at once with no value; a parked writer: swap its value in and schedule it; else pop the oldest buffered value and ask for a refill; else park. Readers park only on an empty buffer and never beside parked writers |
| AsyncChannel.Channel.ReadSuspendInOrder | zedio/async/channel.hpp:34-61 | corrected read, first in, first out: closed: resume with no value; a non-empty buffer: take the oldest value, and if a writer is parked its value takes the freed cell and it is scheduled; an empty buffer with a parked writer: take that writer's value; else park. Readers park only on an empty buffer |
| AsyncChannel.Channel.ReadResume | zedio/async/channel.hpp:63-84 | returns the value read; after a buffered read, the oldest parked writer's value moves into the freed room and the writer is scheduled |
| AsyncChannel.Channel.TakeFromWriter | zedio/async/channel.hpp:44-50 | the reader receives the oldest parked writer's value, the writer is left empty, scheduled and dequeued; readers, the buffer and the closed flag are unchanged |
| AsyncChannel.Channel.Refill | zedio/async/channel.hpp:73-81 | the oldest parked writer's value is appended to the buffer, its slot emptied, and the writer scheduled and dequeued |
| AsyncChannel.Channel.WriteSuspend | zedio/async/channel.hpp:100-126 | closed: resume still holding the value; a parked reader: swap the value in and schedule it; else buffer it when there is room; else park. Writers park only on a full buffer |
| AsyncChannel.Channel.WriteResume | zedio/async/channel.hpp:128-149 | true exactly when the value left the writer; after a buffered write the oldest buffered value goes to the oldest parked reader, which is scheduled |
| AsyncChannel.Channel.Close | zedio/async/channel.hpp:186-200 | the first call schedules every parked reader, then every parked writer, empties both queues and closes; later calls change nothing; the buffer is kept |
| AsyncChannel.RendezvousScenario | zedio/async/channel.hpp:156-157 | with the default capacity 0 a write parks until a read takes its value directly, and both then report success |
| AsyncChannel.ReadOvertakesBufferScenario | zedio/async/channel.hpp:44-50 | capacity 1: with 1 buffered and the writer of 2 parked, a read returns 2 while 1 stays buffered |
| AsyncChannel.FullWithParkedWriter | zedio/async/channel.hpp:100-126 | capacity 1: writing 1 buffers it, and the writer of 2 then parks on the full buffer |
| AsyncChannel.ReadInOrderScenario | zedio/async/channel.hpp:44-58 | with the corrected read, capacity 1, 1 buffered and the writer of 2 parked: the read returns 1, 2 is buffered and its writer is scheduled and reports it sent |
| AsyncChannel.CloseWakesReaderScenario | zedio/async/channel.hpp:186-200 | closing schedules a parked reader, which resumes with no value; closing again schedules nothing more |
| AsyncChannel.WriteAfterCloseScenario | zedio/async/channel.hpp:105-107 | a write to a closed channel resumes at once and reports that nothing was sent (also lines 128-131) |
| IdleWorkers.SearchingOf | zedio/async/idle.hpp:19-21 | `state & SEARCHING_MASK`: the low 16 bits (also line 62) |
| IdleWorkers.WorkingOf | zedio/async/idle.hpp:24-26 | `(state & WORKING_MASK) >> 16`: the bits above the low 16 (also lines 61-64) |
| IdleWorkers.Fields | zedio/async/idle.hpp:61-74 | packing a working count (48 bits) above a searching count (16 bits) fits in 64 bits and both read back unchanged |
| IdleWorkers.IdleState.NumSearching | zedio/async/idle.hpp:18-21 | the searching count, below 2^16 |
| IdleWorkers.IdleState.NumWorking | zedio/async/idle.hpp:23-26 | the working count, below 2^48 |
| IdleWorkers.IdleState.constructor | zedio/async/idle.hpp:15-16 | num_workers working, none searching |
| IdleWorkers.IdleState.IncNumSearching | zedio/async/idle.hpp:34-36 | one more searching, the working count unchanged |
| IdleWorkers.IdleState.DecNumSearching | zedio/async/idle.hpp:38-43 | one fewer searching, the working count unchanged; true exactly when it was the last searcher |
| IdleWorkers.IdleState.WakeUpOne | zedio/async/idle.hpp:45-47 | one more working and n more searching |
| IdleWorkers.IdleState.DecNumWorking | zedio/async/idle.hpp:49-58 | one fewer working, and one fewer searching when the worker searched; true exactly when it was the last searcher |
| IdleWorkers.Idle.constructor | zedio/async/idle.hpp:80-82 | every worker running, none searching, no sleepers |
| IdleWorkers.Idle.NotifyShouldWakeup | zedio/async/idle.hpp:146-151 | nobody searches and fewer than all work; then some worker is asleep |
| IdleWorkers.Idle.WorkerToNotify | zedio/async/idle.hpp:84-101 | none exactly when no wake-up is due, changing nothing; otherwise the oldest sleeper leaves the list, counted as working and as the one searcher; working + sleepers stays num_workers |
| IdleWorkers.Idle.TransitionWorkerToSleeping | zedio/async/idle.hpp:103-109 | the worker joins the back of the sleepers, one fewer working (and searching when it searched); true exactly for the last searcher |
| IdleWorkers.Idle.TransitionWorkerToSearching | zedio/async/idle.hpp:111-118 | refused exactly when 2 x searching >= num_workers; otherwise one more searching |
| IdleWorkers.Idle.TransitionWorkerFromSearching | zedio/async/idle.hpp:120-123 | one fewer searching; true exactly for the last searcher |
| IdleWorkers.Idle.Remove | zedio/async/idle.hpp:125-137 | true exactly when the worker was asleep; then its first entry leaves the list and it counts as working again |
| IdleWorkers.Idle.Contains | zedio/async/idle.hpp:139-143 | true exactly when the worker is in the sleeper list |
| IdleWorkers.SleepAndNotifyScenario | zedio/async/idle.hpp:84-118 | with two workers, the last searcher going to sleep is reported, is the one woken, and no second wake-up is due while it searches |
| TimerWheel.Index | zedio/time/timer/wheel.hpp:89-96 | `(interval & MASK) >> SHIFT`, digit L of the interval in base 64: a slot below 64 |
| TimerWheel.MaxMsIsNextSlot | zedio/runtime/timer/wheel.hpp:128-129 | `MAX_MS` of level L is `MS_PER_SLOT` of level L + 1 |
| TimerWheel.EntriesFacts | zedio/time/timer/wheel.hpp:14-100 | a valid wheel's entries, read slot by slot, are in deadline order and within its span |
| TimerWheel.LowestSlot | zedio/time/timer/wheel.hpp:55 | `countr_zero(bitmap_)` of a non-empty wheel is an occupied slot holding its first entries, with nothing below it (also line 75) |
| TimerWheel.EmptyIff | zedio/time/timer/wheel.hpp:45-48 | `empty()`: the bitmap is 0 exactly when the wheel holds no entry |
| TimerWheel.EmptyWheel | zedio/time/timer/wheel.hpp:98-100 | a new wheel: bitmap 0, no entries, invariant holds |
| TimerWheel.OffsetIsMod | zedio/time/timer/wheel.hpp:89-96 | the slot digits of all levels together spell the interval modulo the wheel's span |
| TimerWheel.OffsetInSlot | zedio/time/timer/wheel.hpp:89-96 | that offset lies inside the slot `get_index` picks |
| TimerWheel.AddEntry | zedio/time/timer/wheel.hpp:24-31 | keeps the bitmap-matches-slots invariant and leaves the wheel non-empty |
| TimerWheel.AddEntryInserts | zedio/time/timer/wheel.hpp:106-111 | the entry joins the wheel at its offset, ahead of the entries due at the same ms (it is prepended to its slot list), and nothing else changes |
| TimerWheel.Unlink | zedio/time/timer/wheel.hpp:113-128 | the walk down the slot list unlinks the first node that is the entry |
| TimerWheel.RemoveEntry | zedio/time/timer/wheel.hpp:33-43 | a present entry, and only it, leaves; bits of slots left empty are cleared and the invariant holds |
| TimerWheel.NextExpiration | zedio/time/timer/wheel.hpp:72-77 | lowest occupied slot x MS_PER_SLOT plus the child's next time is the offset of the first entry |
| TimerWheel.NextExpirationEarliest | zedio/time/timer/wheel.hpp:152-156 | no entry is due before it, and it lies within the wheel's span |
| TimerWheel.CountDueSorted | zedio/time/timer/wheel.hpp:50-70 | in a wheel's ordered entries the leading count is exactly the entries due by t |
| TimerWheel.ExecuteList | zedio/time/timer/wheel.hpp:143-147 | every entry of the slot list is fired, in list order |
| TimerWheel.HandleExpiredLeaf | zedio/time/timer/wheel.hpp:134-150 | a level-0 wheel fires, in increasing slot order, exactly the entries due within remaining_ms and keeps the rest |
| TimerWheel.HandleExpiredNode | zedio/time/timer/wheel.hpp:50-70 | stopping at the first slot not drained, a higher wheel fires exactly the entries due within remaining_ms, in deadline order, and keeps the rest |
| TimerWheel.HandleExpired | zedio/time/timer/wheel.hpp:50-70 | either kind of wheel: the due entries fired in order, the others kept, the invariant kept |
| TimerWheel.RotatedEntries | zedio/time/timer/wheel.hpp:79-86 | slots moved down by start, bitmap shifted by start: the same entries, each start slots earlier |
| TimerWheel.Rotate | zedio/time/timer/wheel.hpp:79-86 | with slots below start empty, the wheel keeps its invariant and every entry moves start slots earlier |
| RuntimeWheel.LevelUpAsWritten | zedio/runtime/timer/wheel.hpp:28-32 | as written: the parent has bitmap 1 and the wheel in slot 0; the entries are the same, and the invariant holds exactly when the wheel was not empty |
| RuntimeWheel.LevelUpEmptyLeaf | zedio/runtime/timer/wheel.hpp:215-217 | raising an empty level-0 wheel gives a parent whose `empty()` is false though it holds no entry |
| RuntimeWheel.LevelUp | zedio/runtime/timer/wheel.hpp:100-102 | the raised wheel is valid, one level up, holds the same entries at the same offsets, and is empty exactly when the wheel was |
| RuntimeWheel.CanLevelDown | zedio/runtime/timer/wheel.hpp:109-112 | `bitmap_ == 1`: slot 0 is the only occupied slot |
| RuntimeWheel.LevelDown | zedio/runtime/timer/wheel.hpp:104-107 | slot 0's child, one level down, holds every entry of the wheel at the same offsets |
| RuntimeWheel.LevelDownThenUp | zedio/runtime/timer/wheel.hpp:100-112 | lowering a wheel that can be lowered and raising it again gives it back |
| RuntimeWheel.LevelUpThenDown | zedio/runtime/timer/wheel.hpp:100-112 | a raised non-empty wheel can be lowered, back to itself |
| RuntimeWheel.LeafRotatedEntries | zedio/runtime/timer/wheel.hpp:205-212 | the lists moved down by start and the bitmap shifted: the same entries, start ms earlier |
| RuntimeWheel.RotateLeaf | zedio/runtime/timer/wheel.hpp:205-212 | each slot from start on moves down by start into an empty slot; every entry is kept, start ms earlier |
| RuntimeWheel.RotateAny | zedio/runtime/timer/wheel.hpp:90-97 | `rotate(start)` at any level keeps the invariant and every entry, start slots earlier |
| TimerDeadlines.RotateKeepsDeadlines | zedio/runtime/timer/timer.hpp:139-143 | turning the wheel by some ms and moving the start forward by as many keeps every absolute deadline |
| TimerDeadlines.RotatableAfterHandle | zedio/runtime/timer/timer.hpp:118-123 | after the expiry pass every slot before the elapsed whole slots is empty, and a non-empty wheel turns by fewer than 64 |
| TimerDeadlines.PendingEntry | zedio/runtime/timer/timer.hpp:60-63 | a pending deadline less `start_` is an in-span interval naming the entry inside the wheel |
| TimeTimer.Constants | zedio/time/timer/timer.hpp:95-99 | MS_PER_SLOT = 64^5 and MAX_MS = 64^6: the slot length and span of the level-5 wheel |
| TimeTimer.Timer.constructor | zedio/time/timer/timer.hpp:101-104 | start and last handling time read the clock; no entry pending |
| TimeTimer.Timer.AddEntry | zedio/time/timer/timer.hpp:30-45 | PassedTime for a deadline no later than the last handling time, TooLongTime for one at least MAX_MS after start; otherwise inserted in deadline order, ahead of the entries due at the same ms |
| TimeTimer.Timer.RemoveEntry | zedio/time/timer/timer.hpp:47-52 | the pending entry, and only it, leaves |
| TimeTimer.Timer.NextExpirationTime | zedio/time/timer/timer.hpp:54-63 | none exactly when nothing is pending; otherwise the earliest deadline less now, as a `uint64_t` |
| TimeTimer.Timer.HandleExpiredEntries | zedio/time/timer/timer.hpp:65-84 | records now, fires in order exactly the entries due by now, keeps the rest at their deadlines and moves start by the whole slots passed |
| TimeTimer.Timer.RotateIfNeeded | zedio/time/timer/timer.hpp:87-93 | the wheel turns by interval / MS_PER_SLOT slots and start moves as far; every deadline is kept |
| RuntimeTimer.LevelUpAndAddEntry | zedio/runtime/timer/timer.hpp:146-161 | raised until the interval fits, the root holds the old entries plus the new one at its interval, at a level no higher than MAX_LEVEL |
| RuntimeTimer.Timer.constructor | zedio/runtime/timer/timer.hpp:168-170 | start reads the clock; no root and no entries |
| RuntimeTimer.Timer.CountsPending | zedio/runtime/timer/timer.hpp:56 | `num_entries_` is the number of pending entries and is 0 exactly when there is no root (also lines 75-78) |
| RuntimeTimer.Timer.AddEntry | zedio/runtime/timer/timer.hpp:32-58 | PassedTime for a deadline no later than now, TooLongTime for one at least MAX_MS after start; otherwise inserted in deadline order, ahead of the entries due at the same ms, and counted; the root is raised with the corrected RuntimeWheel.LevelUp, not the as-written `level_up` of zedio/runtime/timer/wheel.hpp:28-32 (see Findings) |
| RuntimeTimer.Timer.RemoveEntry | zedio/runtime/timer/timer.hpp:60-80 | the pending entry, and only it, leaves; the count drops by one and the root goes with the last entry |
| RuntimeTimer.Timer.NextExpirationTime | zedio/runtime/timer/timer.hpp:82-96 | none exactly without a root; otherwise the earliest deadline less now, as a `uint64_t` |
| RuntimeTimer.Timer.HandleExpiredEntries | zedio/runtime/timer/timer.hpp:98-128 | nothing when empty; otherwise fires in order exactly the entries due by now, and the count drops by their number |
| RuntimeTimer.Timer.ChangeState | zedio/runtime/timer/timer.hpp:131-144 | an emptied root is dropped; otherwise it turns by the whole slots passed and start moves as far, keeping every deadline |
| Bits.SetBit | zedio/time/timer/wheel.hpp:27 | `bitmap_ \|= 1 << index` sets that bit, keeps every other bit, and stays within 64 bits |
| Bits.ClearBit | zedio/time/timer/wheel.hpp:40 | `bitmap_ &= ~(1 << index)` clears that bit and keeps every other bit |
| Bits.ShiftDown | zedio/time/timer/wheel.hpp:85 | `bitmap_ >>= start`: bit j of the result is bit j + start of the word |
| Bits.CountrZero | zedio/time/timer/wheel.hpp:55 | `countr_zero` of a non-zero word: a set bit with no set bit below it, inside the word |
| EventTimer.InsertEvent | zedio/time/timer.hpp:30 | `std::set::emplace` of a new event: the set stays strictly ordered and gains exactly that event |
| EventTimer.InsertBehind | zedio/time/timer.hpp:30 | an event that does not go before the first one belongs after it, keeping the set ordered |
| EventTimer.OrderedDeadlines | zedio/time/timer.hpp:53 | in set order no later event is due before an earlier one |
| EventTimer.Timer.constructor | zedio/time/timer.hpp:19-22 | no events |
| EventTimer.Timer.AddTimerEvent | zedio/time/timer.hpp:28-33 | the new event (the source asserts it is new) joins the set, which stays ordered; the result names it |
| EventTimer.Timer.Cancel | zedio/time/timer.hpp:35-37 | exactly the given event leaves; the rest stay, in order |
| EventTimer.Timer.GetFirstExpiredTime | zedio/time/timer.hpp:39-46 | none exactly when there are no events; otherwise the earliest deadline less now |
| EventTimer.Timer.PollBatch | zedio/time/timer.hpp:48-61 | exactly the leading events due by now are handed on, in set order, and erased; their number is returned and every event left is due after now |
| EventTimer.EraseOrdered | zedio/time/timer.hpp:36 | erasing an event keeps the set ordered |
| RpcFraming.U32ToBytes | examples/rpc_examples/rpc_util.hpp:39-45 | the four bytes of a value, most significant first |
| RpcFraming.WriteU32 | examples/rpc_examples/rpc_util.hpp:39-45 | the first four bytes become the big-endian value; the bytes after them are untouched |
| RpcFraming.SignedCharToU32 | examples/rpc_examples/rpc_util.hpp:32-35 | `static_cast<uint32_t>` of a signed `char`: bytes of 0x80 and up sign-extend |
| RpcFraming.ReadU32AsWritten | examples/rpc_examples/rpc_util.hpp:29-37 | as written: the low byte of the result is the last header byte, and a last byte of 0x80 or more sets all 24 bits above it |
| RpcFraming.ReadU32 | examples/rpc_examples/rpc_util.hpp:29-37 | read with unsigned bytes, the value is the one whose big-endian bytes are the header (`ntohl`) |
| RpcFraming.ReadWriteU32 | examples/rpc_examples/rpc_util.hpp:29-45 | reading the bytes as unsigned undoes `write_u32` for every value |
| RpcFraming.ReadU32AsWrittenAgrees | examples/rpc_examples/rpc_util.hpp:29-37 | the as-written read is right whenever no byte has its top bit set |
| RpcFraming.ReadU32AsWrittenSignExtends | examples/rpc_examples/rpc_util.hpp:29-37 | 128, written as 00 00 00 80, reads back as 0xFFFFFF80 |
| RpcFraming.Encode | examples/rpc_examples/rpc_util.hpp:157-161 | the frame is 4 + the payload size long and ends with the payload |
| RpcFraming.WriteTo | examples/rpc_examples/rpc_util.hpp:84-91 | appends the length header and the payload to the buffer |
| RpcFraming.DecodeWith | examples/rpc_examples/rpc_util.hpp:167-173 | InsufficientData exactly when fewer than length bytes follow the header; otherwise those length bytes |
| RpcFraming.Decode | examples/rpc_examples/rpc_util.hpp:162-174 | InsufficientData on fewer than 4 bytes or fewer than length after the header; otherwise the length bytes after the header, the rest ignored |
| RpcFraming.DecodeAsWritten | examples/rpc_examples/rpc_util.hpp:162-174 | as written, with the sign-extending read: InsufficientData on fewer than 4 bytes or fewer bytes than that length after the header; otherwise the length bytes after the header |
| RpcFraming.DecodeEncode | examples/rpc_examples/rpc_util.hpp:157-174 | decoding an encoded payload, followed by any bytes, gives the payload back |
| RpcFraming.DecodeAsWrittenRejects128 | examples/rpc_examples/rpc_util.hpp:162-174 | the as-written decoder rejects the complete frame of a 128-byte payload |
| RpcFraming.RpcCode | examples/rpc_examples/rpc_util.hpp:96-105 | InsufficientData is 9000 and each later code one more, up to 9007 |
| RpcFraming.FromRpcCode | examples/rpc_examples/rpc_util.hpp:96-105 | an int names a code exactly when it lies in 9000..9007, and then the one with that value |
| RpcFraming.RpcCodeRoundTrip | examples/rpc_examples/rpc_util.hpp:96-105 | every code is found again from its value |
| RpcFraming.MakeRpcError | examples/rpc_examples/rpc_util.hpp:145-149 | asserts a value of 9000 or more and keeps it |
| RpcFraming.RpcMessage | examples/rpc_examples/rpc_util.hpp:117-139 | a fixed non-empty text for each of the eight codes, `strerror` for any other value |
| RedisClient.ParseCount | examples/redis_client.cpp:36-44 | reading a RESP element count (decimal digits then CRLF) always consumes input |
| RedisClient.ParseBulk | examples/redis_client.cpp:14-23 | reading one RESP bulk string (`$`, length, CRLF, data, CRLF) always consumes input |
| RedisClient.ParseCountOf | examples/redis_client.cpp:36-44 | a count written in decimal and ended by CRLF reads back as that count, leaving what follows |
| RedisClient.BulkRoundTrip | examples/redis_client.cpp:14-28 | a bulk string reads back as its data, whatever follows it |
| RedisClient.BulksRoundTrip | examples/redis_client.cpp:36-44 | a run of bulk strings reads back as its elements, in order |
| RedisClient.ArrayRoundTrip | examples/redis_client.cpp:36-48 | a RESP array of bulk strings reads back as its elements and leaves the rest of the input |
| RedisClient.ArrayOfTwo | examples/redis_client.cpp:38-47 | a two-element array is the header `*2\r\n` followed by both bulk strings |
| RedisClient.ArrayOfThree | examples/redis_client.cpp:38-48 | a three-element array is the header `*3\r\n` followed by the three bulk strings |
| RedisClient.SetCommand | examples/redis_client.cpp:149-154 | the text `send_set_command` formats is the RESP array of the bulk strings SET, key and value |
| RedisClient.GetCommand | examples/redis_client.cpp:159-161 | the text `send_get_command` formats is the RESP array of the bulk strings GET and key |
| RedisClient.CommandsRoundTrip | examples/redis_client.cpp:149-161 | a server reading either command as an array gets back exactly the command word and its arguments |
| RedisClient.GetCommandExample | examples/redis_client.cpp:47 | `GET hello` is sent as `*2\r\n$3\r\nGET\r\n$5\r\nhello\r\n`, as the protocol notes show |
| RedisClient.SetCommandExample | examples/redis_client.cpp:48 | `SET hello world` is sent as the byte string the protocol notes show |
| RedisClient.HelloWorld | examples/redis_client.cpp:26 | `hello` as a bulk string is `$5\r\nhello\r\n` |
| RedisClient.ReadUntilCrlf | examples/redis_client.cpp:110 | `read_until(buf, "\r\n")` splits the input into a line and a remainder that together are the input; without a CRLF the whole input is the line |
| RedisClient.ReadLine | examples/redis_client.cpp:110 | a line free of CRLF followed by CRLF is read up to and including that CRLF and no further (also lines 115, 124) |
| RedisClient.Stol | examples/redis_client.cpp:116 | `std::stol` either throws or yields a value in the range of `long` |
| RedisClient.Stoul | examples/redis_client.cpp:220 | `std::stoul` either throws or yields a value below 2^64 |
| RedisClient.StolOf | examples/redis_client.cpp:116 | a decimal number followed by a non-digit reads back as itself with `stol`, and modulo 2^64 with `stoul` (also line 220) |
| RedisClient.Decode | examples/redis_client.cpp:86-127 | a reply is exactly the text read from the front of the input; no input gives the empty reply; a first byte other than `+` or `$` is the unreachable case |
| RedisClient.DecodeBulkReply | examples/redis_client.cpp:112-126 | the `$` branch returns exactly the text it read |
| RedisClient.DecodeDataLine | examples/redis_client.cpp:123-126 | the data line is checked against the announced length through its size cast to `int`, and the reply returned is exactly the text read |
| RedisClient.ToInt | examples/redis_client.cpp:125 | `static_cast<int>` of a size lies in the range of a 32-bit `int` and keeps any size up to `INT_MAX` |
| RedisClient.ToIntModulo | examples/redis_client.cpp:125 | `static_cast<int>` of a size agrees with the size modulo 2^32 |
| RedisClient.DecodeSimple | examples/redis_client.cpp:108-111 | a simple string reply is read whole, CRLF included, and the input after it is left |
| RedisClient.DecodeBulk | examples/redis_client.cpp:112-126 | a bulk string reply whose data holds no CRLF, and whose data line fits an `int`, is read whole and the input after it is left |
| RedisClient.DecodeBulkOfLength | examples/redis_client.cpp:123-126 | a bulk string reply whose data holds no CRLF is read whole exactly when its data line, CRLF included, is at most `INT_MAX` bytes; a longer one fails the assertion |
| RedisClient.DecodeLines | examples/redis_client.cpp:114-126 | a length line other than -1 and a data line are read up to the data line's CRLF when the line's size cast to `int`, less 2, is the length, and fail the assertion otherwise |
| RedisClient.DecodeMinusOne | examples/redis_client.cpp:114-121 | any `$` reply whose length line `stol` reads as -1 is that line alone, whatever else the line holds |
| RedisClient.DecodeNull | examples/redis_client.cpp:118-121 | the null bulk string `$-1\r\n` is read whole and nothing after it |
| RedisClient.SetReplies | examples/redis_client.cpp:200-205 | `set` reports failure for every reply except `+OK\r\n`: other simple strings, bulk strings and the null reply all fail |
| RedisClient.FindFrom | examples/redis_client.cpp:216 | `find(c, i)` gives an index at or after `i` holding `c`, or none when no such index exists |
| RedisClient.Find | examples/redis_client.cpp:216 | `find(c)` is `npos` exactly when `c` does not occur, and otherwise an index holding `c` |
| RedisClient.Substr | examples/redis_client.cpp:212 | `substr(pos, count)` throws exactly when `pos` is past the end, and otherwise gives the text from `pos` with the count clamped at the end (also lines 220-221) |
| RedisClient.GetAsWritten | examples/redis_client.cpp:209-223 | `get` as written returns the empty string for a reply shorter than 2 bytes, not starting with `$`, or without `\n` |
| RedisClient.GetAsWrittenOn | examples/redis_client.cpp:216-221 | on a `$` reply with a length line read as n, `get` as written returns (n + end + 1) modulo 2^64 bytes from just after the first `\n`, and n + end + 1 bytes when that sum does not wrap |
| RedisClient.GetAsWrittenKeepsCrlf | examples/redis_client.cpp:220-221 | on any bulk string reply whose size fits a `size_t`, `get` as written returns the data followed by its closing CRLF |
| RedisClient.GetWrappedCount | examples/redis_client.cpp:220-221 | the reply `$-1\nab\r\n` is decoded whole; `get` as written reads its length as 2^64 - 1, its count wraps to 3 and it returns `ab\r`, while the corrected `get` returns `ab\r\n` |
| RedisClient.WrappedReplyDecoded | examples/redis_client.cpp:114-121 | the reply `$-1\nab\r\n` is read by `decode` as one reply with nothing left over |
| RedisClient.GetHelloAsWritten | examples/redis_client.cpp:220-221 | the reply `$5\r\nhello\r\n` gives `hello\r\n`, not `hello` |
| RedisClient.Get | examples/redis_client.cpp:209-223 | the corrected `get` handles short, non-`$` and `\n`-free replies as written |
| RedisClient.GetOn | examples/redis_client.cpp:216-221 | on a `$` reply with a length line read as n, the corrected `get` returns the n bytes after the first `\n` |
| RedisClient.GetRoundTrip | examples/redis_client.cpp:209-223 | on a bulk string reply the corrected `get` returns exactly its data, whatever follows |
| RedisClient.GetNull | examples/redis_client.cpp:216-221 | on the null reply both versions of `get` return the empty string |
| RedisClient.GetExchange | examples/redis_client.cpp:159-170 | a GET round trip: the server reads GET and the key, and a bulk string reply comes back to the caller as its data (also lines 209-223) |
| Addr.U16Bytes | zedio/net/addr.hpp:126 | a `uint16_t` field occupies two bytes of the address storage (also line 159) |
| Addr.U32Bytes | zedio/net/addr.hpp:127 | a `uint32_t` field occupies four bytes of the address storage (also line 146) |
| Addr.U16RoundTrip | zedio/net/addr.hpp:154-160 | a 16-bit value stored in two bytes reads back unchanged |
| Addr.U32RoundTrip | zedio/net/addr.hpp:127 | a 32-bit value stored in four bytes reads back unchanged (also lines 139, 146) |
| Addr.Htons | zedio/net/addr.hpp:126 | `htons` stores the high byte first, i.e. in network order (also line 159) |
| Addr.Ntohs | zedio/net/addr.hpp:155 | `ntohs` undoes `htons` and is the same swap |
| Addr.Ipv4FromOctets | zedio/net/addr.hpp:21-23 | the four octets are laid out in memory in the order given, i.e. in network order |
| Addr.Ipv4EqualIffOctets | zedio/net/addr.hpp:21-23 | two addresses built from octets compare equal exactly when the octets are equal (also lines 51-53) |
| Addr.Ipv6FromGroups | zedio/net/addr.hpp:61-77 | eight 16-bit groups fill the 16 bytes of the `in6_addr` |
| Addr.Ipv6Groups | zedio/net/addr.hpp:110 | the 16 bytes of an `in6_addr` read back as eight groups |
| Addr.Ipv6GroupsRoundTrip | zedio/net/addr.hpp:61-77 | the groups given to the constructor are the groups the address holds, in order |
| Addr.Ipv6EqualIffGroups | zedio/net/addr.hpp:61-77 | two addresses built from groups compare equal (`memcmp`) exactly when the groups are equal (also lines 95-97) |
| Addr.SocketAddr.Ip | zedio/net/addr.hpp:137-143 | `ip()` gives an IPv4 address exactly when the family is AF_INET |
| Addr.SocketAddr.Family | zedio/net/addr.hpp:186-188 | the `uint16_t` whose host bytes are the first two bytes of the storage |
| Addr.SocketAddr.IsIpv4 | zedio/net/addr.hpp:176-178 | true exactly when the family bytes are 2, 0 (AF_INET, low byte first) |
| Addr.SocketAddr.IsIpv6 | zedio/net/addr.hpp:181-183 | true exactly when the family bytes are 10, 0 (AF_INET6, low byte first) |
| Addr.SocketAddr.Port | zedio/net/addr.hpp:154-156 | the port field read in network order: storage byte 2 is the high byte, byte 3 the low one |
| Addr.SocketAddr.Length | zedio/net/addr.hpp:201-207 | `length()` is the size of `sockaddr_in` for IPv4, otherwise that of `sockaddr_in6`, and never more than the storage |
| Addr.SocketAddr.ToString | zedio/net/addr.hpp:163-173 | the text ends in `:` and the decimal port; before that it is `inet_ntop` of the address bytes 4-7 for IPv4, and `[`, `inet_ntop` of bytes 8-23, `]` otherwise |
| Addr.SocketAddr.FromIpv4 | zedio/net/addr.hpp:124-128 | the new address is IPv4 and holds the given address and port, with length 16 |
| Addr.SocketAddr.FromIpv6 | zedio/net/addr.hpp:130-134 | the new address is IPv6 and holds the given address and port, with length 28 |
| Addr.SocketAddr.FromRaw | zedio/net/addr.hpp:120-122 | the first `len` bytes of the storage are the bytes given |
| Addr.SocketAddr.SetPort | zedio/net/addr.hpp:158-160 | afterwards `port()` is the new port; family and address are unchanged |
| Addr.SocketAddr.SetIpv4 | zedio/net/addr.hpp:145-147 | family and port are unchanged, and an IPv4 address now holds the new address |
| Addr.SocketAddr.SetIpv6 | zedio/net/addr.hpp:149-151 | family and port are unchanged, and an IPv6 address now holds the new address |
| Addr.AddrText | zedio/net/addr.hpp:163-173 | the text ends in `:` and the decimal port, and the host part before it is `inet_ntop` of an IPv4 address, or `[`, `inet_ntop` of an IPv6 address and `]` |
| Addr.Bracketed | zedio/net/addr.hpp:169-171 | the IPv6 text is enclosed in `[` and `]` |
| Addr.JoinPort | zedio/net/addr.hpp:167 | the text is the host, a colon and the port (also line 171) |
| Addr.CopyOf | zedio/net/addr.hpp:120-122 | copying `length()` bytes of an address keeps its family, port, address and length (also lines 200-207) |
| Addr.UnixSocketAddr.StrLen | zedio/net/addr.hpp:275 | `strlen(sun_path)` counts the bytes before the first NUL |
| Addr.UnixSocketAddr.Pathname | zedio/net/addr.hpp:259-261 | the C string in `sun_path`: a prefix of it with no NUL byte, ended by a NUL unless it fills all 108 bytes |
| Addr.UnixSocketAddr.Length | zedio/net/addr.hpp:273-276 | `length()` is the pathname's length plus the size of the family field |
| Addr.UnixSocketAddr.HasPathnameAsWritten | zedio/net/addr.hpp:248-251 | as written: true exactly when the pathname is empty (see Findings) |
| Addr.UnixSocketAddr.HasPathname | zedio/net/addr.hpp:248-251 | corrected `has_pathname()`: true exactly when the pathname is not empty |
| Addr.UnixSocketAddr.FromPath | zedio/net/addr.hpp:238-241 | the address is AF_UNIX, its path array starts with the path and is zero after it (also line 288) |
| Addr.ParseUnix | zedio/net/addr.hpp:279-285 | no address exactly for an empty path or one of 108 bytes or more; otherwise an AF_UNIX address holding the path followed by zeros |
| Addr.ParsedPathname | zedio/net/addr.hpp:259-261 | for a parsed path without NUL bytes, `pathname()` is the path and `length()` is its length plus 2 (also lines 273-276, 279-285) |
| Addr.HasPathnameInverted | zedio/net/addr.hpp:248-251 | for the address of any non-empty path, `has_pathname()` as written says false while the corrected one says true |
| Decimal.NatToDecimal | examples/redis_client.cpp:151 | `std::to_string` of a size is a non-empty digit string without leading zeros (also lines 153, 161) |
| Decimal.DigitsValueOfDecimal | examples/redis_client.cpp:151 | the decimal text of a number denotes that number (also line 161) |
| Decimal.IntToDecimal | zedio/common/error.hpp:121 | the text of an int starts with `-` exactly when it is negative |
| Decimal.ParseIntToDecimal | zedio/common/error.hpp:121 | the decimal text of any int, followed by a non-digit, reads back as that int |
| Errors.Code | zedio/common/error.hpp:21-31 | each library error code lies in 8000..8008 |
| Errors.FromCode | zedio/common/error.hpp:21-31 | an int names a library code exactly when it lies in 8000..8008, and then names the one with that value |
| Errors.CodeRoundTrip | zedio/common/error.hpp:21-31 | every code is found again from its value, so the enumerators are distinct |
| Errors.KnownMessage | zedio/common/error.hpp:46-63 | every library code has a non-empty message |
| Errors.Message | zedio/common/error.hpp:44-67 | `message()` is the library's own text for its codes and `strerror` of the value for anything else |
| Errors.KnownMessagesDistinct | zedio/common/error.hpp:46-63 | different library codes have different messages |
| Errors.MakeError | zedio/common/error.hpp:73-77 | `make_error` keeps the non-negative value it is given |
| Errors.ParseSpec | zedio/common/error.hpp:107-118 | the format spec is accepted exactly when it is empty, starts with `}`, is one character, or has `}` second; the stop position is at most 1 and points at `}` when inside the spec |
| Errors.Format | zedio/common/error.hpp:120-122 | the text starts with the message and ends with `)` |
| Errors.FormatShowsCode | zedio/common/error.hpp:120-122 | the formatted text starts with the message, then ` (error `, and the error's value reads back from what follows |
| ConfigTree.Leaves | zed/util/parse_config.hpp:65-72 | the walk of a document hands on only nodes that are not maps |
| ConfigTree.ToLower | zed/util/parse_config.hpp:38 | lowering keeps the length and maps exactly the upper-case ASCII letters to lower case |
| ConfigTree.LowerValidKey | zed/util/parse_config.hpp:38 | a key the character check accepts is unchanged by lowering (also line 62) |
| ConfigTree.NineMissing | zed/util/parse_config.hpp:62 | the keys accepted as written are exactly the intended valid keys that contain no `9` |
| ConfigTree.LeafKeysValid | zed/util/parse_config.hpp:60-73 | when every prefix the walk visits is valid, every leaf key it produces is valid |
| ParseConfig.LoadIsLeaves | zed/util/parse_config.hpp:60-73 | `load` throws exactly when some visited prefix holds a character outside the key set, and otherwise hands on every leaf in document order |
| ParseConfig.Load | zed/util/parse_config.hpp:60-73 | when `load` does not throw, its prefix is a valid key and every key it hands on extends the prefix |
| ParseConfig.LoadedLeaves | zed/util/parse_config.hpp:60-73 | what `load` hands on contains no map and only valid keys |
| ParseConfig.NineThrows | zed/util/parse_config.hpp:62 | as written a document with the key `worker9` throws; with `9` allowed it loads as that one leaf |
| ParseConfig.StoreKeeps | zed/util/parse_config.hpp:40 | `emplace` never overwrites a key already in the table (also line 44) |
| ParseConfig.StoreAbsent | zed/util/parse_config.hpp:34-46 | a key that no leaf names stays out of the table |
| ParseConfig.StoreFirst | zed/util/parse_config.hpp:34-46 | a new key holds the text of the first leaf that names it |
| ParseConfig.StoreNamed | zed/util/parse_config.hpp:34-46 | every new key in the table is named by some leaf |
| ParseConfig.ParseConfig.constructor | zed/util/parse_config.hpp:76-77 | the table starts empty |
| ParseConfig.ParseConfig.Open | zed/util/parse_config.hpp:27 | constructing from a document fails exactly when a key is invalid, and otherwise holds the stored leaves |
| ParseConfig.ParseConfig.LoadFromFile | zed/util/parse_config.hpp:29-47 | the load succeeds exactly when every key is valid; then each leaf is stored in order under its lowered key, otherwise the table is unchanged |
| ParseConfig.ParseConfig.Get | zed/util/parse_config.hpp:49-57 | the stored text when the key is present, the default otherwise |
| ParseConfig.LoadedTable | zed/util/parse_config.hpp:29-47 | every key of a freshly loaded table is a non-empty valid key of the document (also lines 60-73) |
| Configurator.YamlNodes | src/config/config.hpp:157-173 | `LoadYamlNodes` hands on only nodes that are not maps |
| Configurator.ValidLeaves | src/config/config.hpp:159-163 | the filtered leaves all have valid keys |
| Configurator.YamlNodesFilter | src/config/config.hpp:157-173 | skipping each subtree under an invalid prefix keeps exactly the leaves whose keys are valid, in document order |
| Configurator.YamlNodesAllValid | src/config/config.hpp:157-173 | when every prefix is valid nothing is skipped |
| Configurator.NineSkipped | src/config/config.hpp:159 | as written `worker9` is skipped while its sibling `workers` is kept; with `9` allowed both are kept |
| Configurator.AssignUnnamed | src/config/config.hpp:113-129 | a name no leaf names keeps its updater's value, or stays absent |
| Configurator.AssignLast | src/config/config.hpp:113-129 | a name holds the text of the last leaf that names it, because `set_value` overwrites |
| Configurator.RepeatedLeaf | src/config/config.hpp:165-168 | the document `{a.b: 1, a: {b: 2}}` yields the leaf `a.b` twice |
| Configurator.RepeatedKey | src/config/config.hpp:123 | on a repeated key the configurator keeps the last text, while the table loader keeps the first (zed/util/parse_config.hpp line 40) |
| Configurator.ConfigVariable.constructor | src/config/config.hpp:67 | a new variable holds the given value and has no updater |
| Configurator.ConfigVariable.SetValue | src/config/config.hpp:80-89 | afterwards the value is the new one; an equal value changes nothing |
| Configurator.ConfigVariable.FromString | src/config/config.hpp:76-78 | the text becomes the value |
| Configurator.ConfigVariable.SetUpdater | src/config/config.hpp:91 | the variable refers to the given updater and keeps its value |
| Configurator.ConfigVariable.Release | src/config/config.hpp:69-74 | a variable with an updater leaves that updater's listeners; the updater's value is unchanged |
| Configurator.ConfigUpdater.constructor | src/config/config.hpp:59-61 | a new updater has no value and no listener |
| Configurator.ConfigUpdater.Listen | src/config/config.hpp:27-30 | the variable joins the listeners and the value is unchanged |
| Configurator.ConfigUpdater.Erase | src/config/config.hpp:32-35 | the variable leaves the listeners and the value is unchanged |
| Configurator.ConfigUpdater.SetValue | src/config/config.hpp:37-46 | the updater and every listener hold the new text; the listeners keep their updater |
| Configurator.ConfigUpdater.HasValue | src/config/config.hpp:48-51 | true exactly when the text is not empty |
| Configurator.Configurator.constructor | src/config/config.hpp:106 | loading into an empty registry gives each name the last text the document assigns it, with fresh updaters and no listeners |
| Configurator.Configurator.UpdaterFor | src/config/config.hpp:118-121 | the updater under a name, created without value or listener when missing; nothing else changes (also lines 135-138) |
| Configurator.Configurator.Push | src/config/config.hpp:121-128 | the named updater and its listeners take the text; no other updater or variable changes |
| Configurator.Configurator.SetNamed | src/config/config.hpp:117-128 | one load step: the updater under the name, created when missing, and its listeners take the text |
| Configurator.Configurator.Load | src/config/config.hpp:108-130 | afterwards every name holds the last text the document assigns it and every other name keeps its value; existing updaters and listeners stay registered |
| Configurator.Configurator.UpdateVariable | src/config/config.hpp:133-144 | the variable listens to the named updater, created when missing, and refers back to it; it takes the updater's value when that is not empty; nothing else changes |
| Configurator.Configurator.Register | src/config/config.hpp:139-143 | the variable joins the updater's listeners and takes its value when that is not empty |
| Configurator.Configurator.MakeVariable | src/config/config.hpp:188-193 | a new variable registered under the name holds the updater's value when that is not empty, and the default otherwise |
| DocsTheme.LastUpdate | docs/.vitepress/en.ts:3 | the build date is the first ten characters of the ISO timestamp, or all of it when shorter |
| DocsEn.MakeNavBar | docs/.vitepress/en.ts:30-64 | four entries: a drop-down labelled with the build date whose three links all live under `/zedio/`, then three plain links |
| DocsEn.MakeSidebarZedio | docs/.vitepress/en.ts:66-79 | one expanded section whose relative links are overview, install, benchmark and contributing |
| DocsEn.MakeSidebarUserGuide | docs/.vitepress/en.ts:81-92 | one expanded section whose relative links are runtime and io |
| DocsEn.SidebarMap | docs/.vitepress/en.ts:13-16 | the sidebar serves `/zedio/` and `/user_guide/`, each with its own key as `base` |
| DocsEn.SiteEditLink | docs/.vitepress/en.ts:18-21 | the edit link points into the repository's `docs/` tree on GitHub |
| DocsEn.SiteFooter | docs/.vitepress/en.ts:23-26 | the footer has a licence message and a copyright line |
| DocsEn.Config | docs/.vitepress/en.ts:5-28 | the English site is `en-US` and is built from the nav bar of the build date, the sidebar map, the edit link and the footer |
| DocsZh.MakeNavBar | docs/.vitepress/zh.ts:30-64 | four entries: a drop-down labelled with the build date whose links live under `/zh/zedio/`, then three plain links under `/zh/` |
| DocsZh.MakeSidebarZedio | docs/.vitepress/zh.ts:66-79 | one expanded section with the same relative links as the English one |
| DocsZh.MakeSidebarUserGuide | docs/.vitepress/zh.ts:81-92 | one expanded section with the same relative links as the English one |
| DocsZh.SidebarMap | docs/.vitepress/zh.ts:13-16 | the sidebar serves `/zh/zedio/` and `/zh/user_guide/`, each with its own key as `base` |
| DocsZh.SiteEditLink | docs/.vitepress/zh.ts:18-21 | the edit link has the same pattern as the English one |
| DocsZh.SiteFooter | docs/.vitepress/zh.ts:23-26 | the footer is the English one |
| DocsZh.Config | docs/.vitepress/zh.ts:5-28 | the Chinese site is `zh-CN` and is built from its own nav bar, sidebar map, edit link and footer |
| DocsZh.NavGroupMirrorsEnglish | docs/.vitepress/zh.ts:32-49 | the Chinese drop-down is the English one with `/zh` in front of its match and of each link |
| DocsZh.NavLinksMirrorEnglish | docs/.vitepress/zh.ts:51-62 | the three plain Chinese links are the English ones with `/zh` in front, in the same order |

## Left out

- Concurrency is not modelled. Threads, mutexes, atomics and compare-and-swap retry loops are absent: each queue, channel and idle-state method is one atomic step in which every compare-and-swap succeeds the first time. The interleavings inside `LocalQueue` are not modelled.
- Coroutines are not modelled. Task, the awaiters' suspension and `schedule_task` are absent: a coroutine handle is an opaque id, and resuming one appends it to a `scheduled` sequence.
- Clocks are parameters: the timers and the documentation date take `now` (or the ISO timestamp) from the caller.
- Syscalls and foreign libraries are not modelled: io_uring, epoll, sockets, `inet_pton`/`inet_ntop` (passed in as functions), `getaddrinfo` (so `SocketAddr::parse` and `Ipv4Addr::parse`/`Ipv6Addr::parse` are left out), `strerror` (passed in as a function), yaml-cpp (the loaders are handed a parsed `ConfigTree.Node`; `YAML::LoadFile` and the YAML emitter are not modelled).
- `UnixSocketAddr(const sockaddr *, size_t)` is a plain `memcpy` and is not modelled separately; the `sockaddr` copy of `SocketAddr` is `Addr.SocketAddr.FromRaw`.
- Addresses are laid out for a little-endian host (x86-64 Linux); the Windows code paths of `zedio/common/error.hpp` are left out.
- The older `TcpBuffer` and `StreamBuffer` of `zed/net/detail/` hold their `std::vector<char>` as a sequence field: each `memcpy` into the vector and each `resize` becomes a sequence update, so pointers handed out into the storage and their aliasing are not captured.
- The timing wheels are modelled on values: the `unique_ptr` tree of child wheels and the intrusive per-slot lists become a recursive datatype, so update in place and the list nodes' aliasing are not captured.
- `zedio/time/event.hpp` is not part of this model; events of `EventTimer` are taken to be ordered by deadline, then by handle.
- `LOCAL_QUEUE_CAPACITY` is defined in the runtime's configuration header, which is not part of this model; it is taken to be 256, and only that it is a power of two is used.
- `zedio/sync/channel/counter.hpp` is not part of this model: the Sender and Receiver handles appear only through `add_sender`/`sub_sender`/`add_receiver`/`sub_receiver`.
- The RPC `serialize`/`deserialize` templates, `Framed`, `RpcServer::invoke` and the example network loops are left out; only the framing and the error table are modelled.
- The Redis client's `connect`, `close`, the buffered reader/writer and logging are left out; the connection's remaining input is a string parameter and the part a read leaves is returned.
- `Configurator::to_string` (a debug dump) and the `std::cerr` report of an invalid key are left out.
- Configuration values are text: `boost::lexical_cast<T>` is modelled for `T = std::string`, where it is the identity.
- Configurator.Configurator.MakeVariable: returns the registered variable itself; the source returns it by value, whose copy (with the registered address left behind) is not modelled.
- Configurator.Configurator.UpdateVariable: requires a variable not yet registered; registering the same variable twice under two names is not modelled.
- IdleWorkers.Idle.TransitionWorkerFromSearching: requires a searching worker to exist; the source's `fetch_sub` on a zero count would borrow into the packed word.
- IdleWorkers.IdleState.DecNumSearching: requires a searching worker to exist, for the same reason.
- IdleWorkers.IdleState.DecNumWorking: requires a working worker to exist, for the same reason.
- IdleWorkers.Idle.constructor: requires fewer than 2^16 workers, so both packed counters fit their 16-bit fields.
- TimerWheel.Rotate: requires a rotation of at least one slot; `rotate(0)` is never called, since the callers check that the elapsed count is positive.
- RuntimeWheel.RotateLeaf: requires a rotation of at least one slot, for the same reason.
- TimeTimer.Timer.HandleExpiredEntries: requires `now` to be less than one full wheel span after the start; the source relies on being called at least that often.
- RuntimeTimer.Timer.AddEntry: requires the start time to be no later than `now`.
- Logging, thread pools, worker run loops, the runtime builders, the lock-free synchronisation primitives and the file and socket types are not part of the modelled core.

## Findings

| source | as written | input that shows it | evidently intended | confidence | as-written member | corrected member |
|---|---|---|---|---|---|---|
| zedio/common/util/ring_buffer.hpp:120-127 | `resize` increments `new_size` before comparing it with `size()`, so a capacity one below the current size passes the check | 5 elements in 6 slots (start 0, end 5), `resize(4)`: accepted, with `end` left at 5 in a 5-slot vector | reject any capacity below `size()` | not executed | Ring.ResizeAsWrittenAcceptsTooSmall | Ring.Resize |
| zedio/common/container/ring_buffer.hpp:94-100 | `FlexRingBuffer::resize` increments `new_size` before comparing it with `size()`, the same check as the util ring buffer | 5 elements in 6 slots (start 0, end 5), `resize(4)`: accepted, with `end` left at 5 in a 5-slot vector | reject any capacity below `size()` | not executed | Ring.ResizeAsWrittenAcceptsTooSmall | ContainerRingBuffer.FlexRingBuffer.Resize |
| zedio/common/container/ring_buffer.hpp:101-113 | `FlexRingBuffer::resize` leaves the cursors of an empty ring (`start_ == end_`) as they are when the storage shrinks | start = end = 4 in 6 slots, `resize(2)`: the cursors stay at 4 in a 3-slot vector | reset the cursors of an empty ring to 0 | not executed | Ring.ResizeAsWrittenKeepsStaleCursors | ContainerRingBuffer.FlexRingBuffer.Resize |
| zedio/common/util/ring_buffer.hpp:129-138 | an empty ring (`start_ == end_`) keeps its cursors when the storage shrinks | start = end = 4 in 6 slots, `resize(2)`: the cursors stay at 4 in a 3-slot vector | reset the cursors of an empty ring to 0 | not executed | Ring.ResizeAsWrittenKeepsStaleCursors | Ring.Resize |
| examples/rpc_examples/rpc_util.hpp:29-37 | `read_u32` casts each `char` straight to `uint32_t`, so a byte of 0x80 or more sign-extends | the frame of a 128-byte payload: header 00 00 00 80 reads as 0xFFFFFF80 and decoding fails with InsufficientData | read the header bytes as unsigned, giving back the length `write_u32` stored | not executed | RpcFraming.DecodeAsWrittenRejects128 | RpcFraming.DecodeEncode |
| zed/async/queue.hpp:28-33 | `size()` is `wrapping_sub(tail, head)` reduced modulo the capacity, so a full queue reads as empty | 256 pushes into an empty queue: `size()` is 0 and `pop` returns none | counters that wrap at 2^32, with the size reaching the capacity | not executed | ZedQueue.PushCapacityLosesAll | AsyncQueue.LocalQueue.PushBackOrOverflow |
| zed/net/detail/tcp_buffer.hpp:81-90 | the compaction branch of `expand` copies `writeable_bytes()` bytes, not the unread ones | 8 bytes, read index 3, write index 5 (unread "de"), append "WXYZ": one stale byte lies between "de" and "WXYZ" | copy the readable bytes to the front | not executed | ZedTcpBuffer.AppendAsWrittenKeepsStaleByte | ZedTcpBuffer.TcpBuffer.Append |
| zed/net/detail/tcp_buffer.hpp:82 | `expand` grows the vector only when `writeable_bytes() < prependable_bytes()`, whatever `len` is, so compaction can leave fewer than `len` writeable bytes | 8 bytes, read index 1, write index 4, append 6 bytes: the buffer is compacted, 4 bytes stay writeable and `append`'s `memcpy` of 6 bytes runs past the vector | grow when the writeable and prependable space together is below `len` | not executed | ZedTcpBuffer.AppendAsWrittenOverflows | ZedTcpBuffer.TcpBuffer.Append |
| zed/net/detail/stream_buffer.hpp:56-62 | `append` calls `increase_read_index` after the copy | unread "ab", append "xy": everything is consumed instead of the unread data becoming "abxy" | advance the write index by the appended length | not executed | ZedStreamBuffer.AppendAsWrittenDropsData | ZedStreamBuffer.StreamBuffer.Append |
| zed/net/detail/stream_buffer.hpp:81-90 | the compaction branch of `expand` copies `writeable_bytes()` bytes, not the unread ones | 8 bytes, read index 3, write index 5 (unread "de"), expand by 4: the unread data becomes "def" | copy the readable bytes to the front | not executed | ZedStreamBuffer.ExpandAsWrittenKeepsStaleByte | ZedStreamBuffer.StreamBuffer.Expand |
| examples/redis_client.cpp:220-221 | `get` passes `end + 1 + payload_len` as the count of `substr`, so the data's closing CRLF comes along | the reply `$5\r\nhello\r\n` gives `hello\r\n` | the count is `payload_len`, giving exactly the data | not executed | RedisClient.GetAsWrittenKeepsCrlf | RedisClient.GetRoundTrip |
| zedio/net/addr.hpp:248-251 | `has_pathname` is true when the first path byte is NUL | the address parsed from "/tmp/s": `has_pathname()` is false | true exactly when the path is not empty: `pathname()` (zedio/net/unix/addr.hpp:32-37) returns nothing exactly when `has_pathname()` is false, so as written a real path is never returned | not executed | Addr.HasPathnameInverted | Addr.UnixSocketAddr.HasPathname |
| zedio/sync/channel/channel.hpp:130-134 | `sub_receiver` decrements `num_senders_` | one sender, two receivers, one receiver leaves: the channel is destroyed and the sender's next send fails with ClosedChannel | decrement `num_receivers_` | not executed | SyncChannel.ReceiverLeavesScenario | SyncChannel.Channel.SubReceiver |
| zedio/async/channel.hpp:44-50 | a read takes a parked writer's value before the buffered ones | capacity 1: write 1 (buffered), write 2 (parks), read: the reader gets 2 while 1 stays buffered | take the oldest buffered value and move the parked writer's value into the buffer | not executed | AsyncChannel.ReadOvertakesBufferScenario | AsyncChannel.Channel.ReadSuspendInOrder |
| zedio/sync/channel/channel.hpp:64-85 | a receive takes a parked sender's value before the buffered ones | capacity 1: send 1 (buffered), send 2 (parks), receive: the receiver gets 2 while 1 stays buffered | take the oldest buffered value and move the parked sender's value into the buffer | not executed | SyncChannel.RecvOutOfOrderScenario | SyncChannel.Channel.RecvSuspend |
| zedio/runtime/timer/wheel.hpp:28-32 | `level_up` sets bitmap bit 0 over the child even when the child wheel is empty | the first `add_entry` on an empty timer with an interval of 64 ms or more: the raised wheel reports a non-empty slot 0 holding an empty leaf | mark slot 0 occupied only when the child holds an entry | not executed | RuntimeWheel.LevelUpEmptyLeaf | RuntimeWheel.LevelUp |
| zed/util/parse_config.hpp:62 | the allowed key characters "abcdefghikjlmnopqrstuvwxyz._012345678" lack the digit 9 | a document with the key `worker9`: `load` throws | allow every digit | not executed | ParseConfig.NineThrows | ParseConfig.ParseConfig.LoadFromFile |
| src/config/config.hpp:159-160 | the same character set, without 9 | a document with keys `worker9` and `workers`: `worker9` is skipped | allow every digit | not executed | Configurator.NineSkipped | Configurator.Configurator.Load |
