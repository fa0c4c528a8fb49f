# Ring buffer of 32-bit integers

A model of `RingBuffer0`, a fixed-capacity circular FIFO of `i32` values, and
of the fill/drain cycle that the throughput driver runs against it.

The buffer holds storage that is allocated once and zero-filled, plus two
cursors, `read_idx` and `write_idx`. The cursors only ever grow and are never
wrapped. A cursor is reduced modulo the storage length only to pick the slot it
names. The buffer is full when `write_idx - read_idx` equals the length. It is
empty when the two cursors are equal. Because the cursors never wrap, those two
tests never overlap for a positive length. With length 0, both always hold.

- `ring_buffer.dfy`, module `RingBuffer`:
  - the class `RingBuffer0`. Its `buffer` field is a `const array<i32>`, since
    the vector is written in place but never replaced. Its cursors are `nat`
    fields.
  - the invariant `Valid()`: the cursors never cross and are never more than
    the length apart.
  - the abstract queue `Contents()`, given by `Window`. Item `k` of the queue
    sits in slot `(read_idx + k) % len`.
  - `Enqueue` and `Dequeue`. Each is proved to change its concrete state
    exactly as the source does, and to append to or pop the front of
    `Contents()`.
- `benchmark.dfy`, module `Benchmark`:
  - the driver's cycle: enqueue 0..999, then dequeue 1000 times, checking the
    order.
  - the general fill/drain property: for any capacity and any items, exactly
    the first `capacity` items are accepted and come back in order.
  - two boundary scenarios the driver never reaches: a full buffer and a
    buffer of size 0.

There is a single remainder-based variant, with no power-of-two or bitmask
variant. A size of 0 is accepted. With size 0, `enqueue` always takes the full
branch and `dequeue` always takes the empty branch, so the remainder by the
length is never computed.

## Model

| member | source | states |
|---|---|---|
| `RingBuffer.SlotsDistinct` | src/main.rs:21-25 | two cursor values fewer than `len` apart name different slots, so a write allowed by the full test never overwrites a queued item |
| `RingBuffer.Window` | src/main.rs:31-38 | the queue between the read and write cursors holds exactly `write_idx - read_idx` items, the values successive dequeues would read |
| `RingBuffer.WindowAt` | src/main.rs:35 | item `k` of the queue is the value in slot `(read_idx + k) % len` |
| `RingBuffer.WindowAfterWrite` | src/main.rs:23-27 | when the buffer is not full, writing `item` into slot `write_idx % len` and advancing `write_idx` appends exactly `item` to the queue and leaves the earlier items in place |
| `RingBuffer.RingBuffer0.constructor` | src/main.rs:12-18 | `new(size)` gives exactly `size` slots, all zero, both cursors at 0, and an empty queue |
| `RingBuffer.RingBuffer0.Enqueue` | src/main.rs:20-29 | when full (`write_idx - read_idx == len`), returns false and changes nothing; otherwise writes `item` only at slot `write_idx % len`, increments `write_idx`, keeps `read_idx`, and returns true; the queue becomes `old + [item]` exactly when true; the cursor invariant is preserved |
| `RingBuffer.RingBuffer0.Dequeue` | src/main.rs:31-39 | when empty (`write_idx == read_idx`), returns `None` and changes nothing; otherwise returns `Some(buffer[read_idx % len])`, increments `read_idx`, and leaves the storage and `write_idx` alone; this is `Some` of the queue's front, and the queue loses its front |
| `Benchmark.BenchmarkSingle` | src/main.rs:44-51 | on an empty buffer with at least 1000 slots, every round's 1000 dequeues return `Some(0)` .. `Some(999)` in order (the `assert_eq!` never fails); after any number of rounds the buffer is empty again and each cursor has advanced by 1000 per round |
| `Benchmark.FillThenDrain` | src/main.rs:20-39 | for any capacity and any items enqueued one at a time into a new buffer, exactly the first `capacity` enqueues return true; the same number of dequeues then return the accepted items in enqueue order, followed by `None` |
| `Benchmark.FullBufferScenario` | src/main.rs:20-39 | with capacity 4, enqueues of 10, 20, 30, 40 succeed and 50 is refused; the next five dequeues return 10, 20, 30, 40 and then `None` |
| `Benchmark.ZeroSizeScenario` | src/main.rs:20-39 | with size 0, any enqueue returns false and a dequeue returns `None` |

## Left out

- Timing and output (src/main.rs:43, src/main.rs:52-55): the clock, the elapsed milliseconds, the ops/ms division and the printed lines are I/O.
- `main` and `K_COUNT` (src/main.rs:3, src/main.rs:58-61): the iteration count is the `rounds` parameter of `BenchmarkSingle`, and the buffer of 2,097,152 slots is any buffer of at least 1000 slots.
- Fixed-width `usize` cursors: they are unbounded `nat`, so overflow after 2^64 operations is not modelled. The code does not handle that case.
- Benchmark.BenchmarkSingle: requires an empty buffer of at least 1000 slots, which is what `main` passes. The model does not describe runs on other buffers. On most of them the `assert_eq!` panics: those with fewer than 1000 slots, or already holding items.
- A power-of-two or bitmask variant: no such variant exists in the code.
