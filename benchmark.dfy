/** Clients of `RingBuffer0`: the throughput driver's fill/drain cycle, and the
    boundary cases that driver never reaches (a full buffer, a zero-size one). */
module Benchmark {
  import opened RingBuffer

  /** The values 0, 1, ..., n - 1 as 32-bit integers. */
  function Ascending(n: nat): (s: seq<i32>)
    requires n <= 1000
  {
    seq(n, i requires 0 <= i < n => i as i32)
  }

  /** `benchmark_single` without its clock and its output: `rounds` times,
      enqueue 0..999 and then dequeue 1000 times, each dequeue yielding the
      next value in order (the source's `assert_eq!` is the `assert` below). */
  method BenchmarkSingle(rb: RingBuffer0, rounds: nat)
    requires rb.Valid() && rb.Contents() == [] && rb.buffer.Length >= 1000
    modifies rb`readIdx, rb`writeIdx, rb.buffer
    ensures rb.Valid() && rb.Contents() == []
    ensures rb.readIdx == old(rb.readIdx) + 1000 * rounds
    ensures rb.writeIdx == old(rb.writeIdx) + 1000 * rounds
  {
    for round := 0 to rounds
      invariant rb.Valid() && rb.Contents() == []
      invariant rb.readIdx == old(rb.readIdx) + 1000 * round
      invariant rb.writeIdx == old(rb.writeIdx) + 1000 * round
    {
      for j := 0 to 1000
        invariant rb.Valid() && rb.Contents() == Ascending(j)
        invariant rb.readIdx == old(rb.readIdx) + 1000 * round
        invariant rb.writeIdx == old(rb.writeIdx) + 1000 * round + j
      {
        var ok := rb.Enqueue(j as i32);
        assert Ascending(j) + [j as i32] == Ascending(j + 1);
      }
      for j := 0 to 1000
        invariant rb.Valid() && rb.Contents() == Ascending(1000)[j..]
        invariant rb.readIdx == old(rb.readIdx) + 1000 * round + j
        invariant rb.writeIdx == old(rb.writeIdx) + 1000 * round + 1000
      {
        var item := rb.Dequeue();
        assert item == Some(j as i32);
        assert Ascending(1000)[j..][1..] == Ascending(1000)[j + 1..];
      }
    }
  }

  /** For any capacity and any items: enqueueing the items one at a time into
      a new buffer accepts exactly the first `capacity` of them, and as many
      dequeues then return the accepted items in order, then `None`. */
  method FillThenDrain(capacity: nat, items: seq<i32>)
    returns (accepted: seq<bool>, drained: seq<Option<i32>>)
    ensures |accepted| == |items| && |drained| == |items|
    ensures forall i :: 0 <= i < |items| ==> accepted[i] == (i < capacity)
    ensures forall i :: 0 <= i < |items| ==>
              drained[i] == if i < capacity then Some(items[i]) else None
  {
    var rb := new RingBuffer0(capacity);
    ghost var held := if |items| < capacity then |items| else capacity;
    accepted := [];
    for i := 0 to |items|
      invariant rb.Valid() && rb.buffer.Length == capacity
      invariant |accepted| == i
      invariant forall k :: 0 <= k < i ==> accepted[k] == (k < capacity)
      invariant rb.Contents() == items[..if i < capacity then i else capacity]
    {
      var ok := rb.Enqueue(items[i]);
      accepted := accepted + [ok];
    }
    drained := [];
    for i := 0 to |items|
      invariant rb.Valid()
      invariant |drained| == i
      invariant forall k :: 0 <= k < i ==>
                  drained[k] == if k < capacity then Some(items[k]) else None
      invariant rb.Contents() == if i < held then items[i..held] else []
    {
      var item := rb.Dequeue();
      drained := drained + [item];
    }
  }

  /** A capacity-4 buffer takes 10, 20, 30, 40, refuses 50 without losing
      anything, then gives back 10, 20, 30, 40 in order and is empty. */
  method FullBufferScenario() returns (accepted: seq<bool>, drained: seq<Option<i32>>)
    ensures accepted == [true, true, true, true, false]
    ensures drained == [Some(10), Some(20), Some(30), Some(40), None]
  {
    var rb := new RingBuffer0(4);
    var a0 := rb.Enqueue(10);
    var a1 := rb.Enqueue(20);
    assert rb.Contents() == [10, 20];
    var a2 := rb.Enqueue(30);
    var a3 := rb.Enqueue(40);
    assert rb.Contents() == [10, 20, 30, 40];
    var a4 := rb.Enqueue(50);
    accepted := [a0, a1, a2, a3, a4];
    var d0 := rb.Dequeue();
    assert rb.Contents() == [20, 30, 40];
    var d1 := rb.Dequeue();
    var d2 := rb.Dequeue();
    assert rb.Contents() == [40];
    var d3 := rb.Dequeue();
    var d4 := rb.Dequeue();
    drained := [d0, d1, d2, d3, d4];
  }

  /** A buffer of size 0 is both full and empty, so neither operation ever
      reaches the remainder by its length. */
  method ZeroSizeScenario(item: i32) returns (accepted: bool, drained: Option<i32>)
    ensures !accepted && drained == None
  {
    var rb := new RingBuffer0(0);
    accepted := rb.Enqueue(item);
    drained := rb.Dequeue();
  }
}
