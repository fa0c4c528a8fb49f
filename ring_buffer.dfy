/** A fixed-capacity circular FIFO of 32-bit integers whose two cursors only
    ever grow; only the slot a cursor names is reduced modulo the capacity. */
module RingBuffer {

  /** The source's `i32`. */
  newtype i32 = x: int | -0x8000_0000 <= x < 0x8000_0000

  datatype Option<+T> = None | Some(value: T)

  /** Two pending positions that are fewer than `n` apart never share a
      slot: this is why an enqueue cannot overwrite an item still queued. */
  lemma SlotsDistinct(a: nat, b: nat, n: nat)
    requires a < b < a + n
    ensures a % n != b % n
  {
    var m := b / n - a / n;
    assert b - a == n * m + (b % n - a % n) by {
      assert a == n * (a / n) + a % n;
      assert b == n * (b / n) + b % n;
    }
    MultiplesSkipBelow(n, m);
  }

  /** No multiple of a positive `n` lies strictly between 0 and `n`. */
  lemma MultiplesSkipBelow(n: nat, m: int)
    requires 0 < n
    ensures n * m <= 0 || n * m >= n
  {
  }

  /** The items held by storage `buf` between cursors `readIdx` and
      `writeIdx`, in the order successive dequeues would return them. */
  function Window(buf: seq<i32>, readIdx: nat, writeIdx: nat): (q: seq<i32>)
    requires readIdx <= writeIdx <= readIdx + |buf|
    ensures |q| == writeIdx - readIdx
    decreases writeIdx - readIdx
  {
    if readIdx == writeIdx then []
    else [buf[readIdx % |buf|]] + Window(buf, readIdx + 1, writeIdx)
  }

  /** Item `k` of the window is the value in slot `(readIdx + k) % |buf|`. */
  lemma {:induction false} WindowAt(buf: seq<i32>, readIdx: nat, writeIdx: nat, k: nat)
    requires readIdx <= writeIdx <= readIdx + |buf|
    requires k < writeIdx - readIdx
    ensures Window(buf, readIdx, writeIdx)[k] == buf[(readIdx + k) % |buf|]
    decreases k
  {
    if k > 0 {
      WindowAt(buf, readIdx + 1, writeIdx, k - 1);
    }
  }

  /** Writing `item` at the write cursor's slot and advancing the write
      cursor appends `item` to the window, provided the window is not full. */
  lemma WindowAfterWrite(buf: seq<i32>, readIdx: nat, writeIdx: nat, item: i32)
    requires readIdx <= writeIdx < readIdx + |buf|
    ensures Window(buf[writeIdx % |buf| := item], readIdx, writeIdx + 1)
         == Window(buf, readIdx, writeIdx) + [item]
  {
    var n := |buf|;
    var after := Window(buf[writeIdx % n := item], readIdx, writeIdx + 1);
    var before := Window(buf, readIdx, writeIdx) + [item];
    forall k | 0 <= k < |after|
      ensures after[k] == before[k]
    {
      if readIdx + k < writeIdx {
        SlotsDistinct(readIdx + k, writeIdx, n);
        WindowAt(buf, readIdx, writeIdx, k);
      }
      WindowAt(buf[writeIdx % n := item], readIdx, writeIdx + 1, k);
    }
  }

  /** The source's `RingBuffer0`: zero-filled storage allocated once, and a
      read and a write cursor that are never wrapped. */
  class RingBuffer0 {
    const buffer: array<i32>
    var readIdx: nat
    var writeIdx: nat

    /** The cursors never cross and never get more than the capacity apart. */
    ghost predicate Valid()
      reads this
    {
      readIdx <= writeIdx <= readIdx + buffer.Length
    }

    /** The abstract FIFO queue the buffer holds, front first. */
    ghost function Contents(): seq<i32>
      reads this, buffer
      requires Valid()
    {
      Window(buffer[..], readIdx, writeIdx)
    }

    /** `RingBuffer0::new`: `size` zero slots and both cursors at 0. */
    constructor (size: nat)
      ensures Valid() && fresh(buffer)
      ensures buffer.Length == size && buffer[..] == seq(size, _ => 0)
      ensures readIdx == 0 && writeIdx == 0
      ensures Contents() == []
    {
      buffer := new i32[size](_ => 0);
      readIdx, writeIdx := 0, 0;
    }

    /** Stores `item` unless the buffer is full; reports whether it did. */
    method Enqueue(item: i32) returns (ok: bool)
      requires Valid()
      modifies this`writeIdx, buffer
      ensures Valid()
      ensures ok <==> old(writeIdx - readIdx) != buffer.Length
      ensures readIdx == old(readIdx)
      ensures !ok ==> writeIdx == old(writeIdx) && buffer[..] == old(buffer[..])
      ensures ok ==> (writeIdx == old(writeIdx) + 1 &&
                      buffer[..] == old(buffer[..])[old(writeIdx) % buffer.Length := item])
      ensures Contents() == if ok then old(Contents()) + [item] else old(Contents())
    {
      if writeIdx - readIdx == buffer.Length {
        ok := false;
      } else {
        ghost var before := buffer[..];
        var i := writeIdx % buffer.Length;
        buffer[i] := item;
        assert buffer[..] == before[i := item];
        WindowAfterWrite(before, readIdx, writeIdx, item);
        writeIdx := writeIdx + 1;
        ok := true;
      }
    }

    /** Removes and returns the oldest item, or `None` when empty. */
    method Dequeue() returns (item: Option<i32>)
      requires Valid()
      modifies this`readIdx
      ensures Valid()
      ensures item.None? <==> old(writeIdx == readIdx)
      ensures writeIdx == old(writeIdx) && buffer[..] == old(buffer[..])
      ensures item.None? ==> readIdx == old(readIdx)
      ensures item.Some? ==> (readIdx == old(readIdx) + 1 &&
                              item.value == buffer[old(readIdx) % buffer.Length])
      ensures item == if old(Contents()) == [] then None else Some(old(Contents())[0])
      ensures Contents() == if old(Contents()) == [] then [] else old(Contents())[1..]
    {
      if writeIdx == readIdx {
        item := None;
      } else {
        var x := buffer[readIdx % buffer.Length];
        readIdx := readIdx + 1;
        item := Some(x);
      }
    }
  }
}
