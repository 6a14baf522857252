/**
 * The byte ring buffer of src/queue.c: a caller-supplied array of `size`
 * bytes with free-running `head` (next write) and `tail` (next read)
 * counters; a counter selects its slot by masking with `size - 1`.
 *
 * queue.h, which defines queue_empty, queue_full and queue_count, is not
 * part of this model.  They are taken to be: empty iff head == tail, full
 * iff head - tail == size, count == head - tail (Empty, Full, Count).
 * Masking is written `% size`, which is what `& (size - 1)` computes for a
 * power-of-two size.  A size of 0 is the zero-filled queue_t a USART
 * keeps when it was given no buffer: it is always empty and always full.
 */
module RingBuffer {

  import opened Bytes

  /** `n` is a power of two. */
  predicate IsPow2(n: nat)
    decreases n
  {
    n == 1 || (n >= 2 && n % 2 == 0 && IsPow2(n / 2))
  }

  class Queue {
    var data: array<byte>
    var size: nat
    var head: nat
    var tail: nat

    /** The queued bytes, oldest first. */
    ghost var Contents: seq<byte>

    ghost predicate Valid()
      reads this, data
    {
      && data.Length == size
      && (size == 0 || IsPow2(size))
      && tail <= head <= tail + size
      && |Contents| == head - tail
      && forall i :: 0 <= i < |Contents| ==> Contents[i] == data[(tail + i) % size]
    }

    /** queue_empty (assumed) */
    function Empty(): bool
      reads this
    {
      head == tail
    }

    /** queue_full (assumed) */
    function Full(): bool
      reads this
    {
      head - tail == size
    }

    /** queue_count (assumed) */
    function Count(): int
      reads this
    {
      head - tail
    }

    /** The three queue.h helpers agree with the queued bytes. */
    lemma CountIsLength()
      requires Valid()
      ensures Count() == |Contents| && 0 <= Count() <= size
      ensures Empty() <==> Contents == []
      ensures Full() <==> |Contents| == size
    {
    }

    /** queue_init: use `buf` as the storage, with nothing queued. */
    constructor Init(buf: array<byte>, size: nat)
      requires buf.Length == size && (size == 0 || IsPow2(size))
      ensures Valid() && fresh(this)
      ensures data == buf && this.size == size && head == 0 && tail == 0
      ensures Contents == []
    {
      this.size := size;
      data := buf;
      head := 0;
      tail := 0;
      Contents := [];
    }

    /** queue_read: remove and return the oldest byte, or -1 when empty. */
    method Read() returns (r: int)
      requires Valid()
      modifies this
      ensures Valid() && data == old(data) && size == old(size)
      ensures old(Contents) == [] ==> r == -1 && Contents == [] && head == old(head) && tail == old(tail)
      ensures old(Contents) != [] ==>
        && r == old(Contents)[0] as int && Contents == old(Contents)[1..]
        && tail == old(tail) + 1 && head == old(head)
    {
      if Empty() {
        return -1;
      }
      var d := data[tail % size];
      tail := tail + 1;
      Contents := Contents[1..];
      r := d as int;
    }

    /** queue_write: append `d`, or return -1 and change nothing when full. */
    method Write(d: byte) returns (r: int)
      requires Valid()
      modifies this, data
      ensures Valid() && data == old(data) && size == old(size)
      ensures old(|Contents|) == size ==>
        && r == -1 && Contents == old(Contents) && head == old(head) && tail == old(tail)
        && data[..] == old(data[..])
      ensures old(|Contents|) < size ==>
        && r == 0 && Contents == old(Contents) + [d]
        && head == old(head) + 1 && tail == old(tail)
        && data[..] == old(data[..])[old(head) % size := d]
    {
      if Full() {
        return -1;
      }
      data[head % size] := d;
      head := head + 1;
      Contents := Contents + [d];
      r := 0;
      forall i | 0 <= i < |old(Contents)|
        ensures Contents[i] == data[(tail + i) % size]
      {
        SlotsDistinct(tail, i, head - 1 - tail, size);
      }
    }

    /** queue_read_buf: copy the min(len, count) oldest bytes to `buf` and
        drop them from the queue; the result is the count before the call,
        not the number of bytes copied. */
    method ReadBuf(buf: array<byte>, len: nat) returns (count: int)
      requires Valid() && buf != data && len <= buf.Length
      modifies this, buf
      ensures Valid() && data == old(data) && size == old(size) && head == old(head)
      ensures count == |old(Contents)|
      ensures var k := if len < count then len else count;
        && buf[..k] == old(Contents)[..k]
        && buf[k..] == old(buf[k..])
        && Contents == old(Contents)[k..]
        && tail == old(tail) + k
    {
      count := Count();
      var n := if len > count then count else len;
      var i := 0;
      while i < n
        invariant 0 <= i <= n && tail == old(tail) + i
        invariant Contents == old(Contents)[i..]
        invariant Valid() && head == old(head) && data == old(data) && size == old(size)
        invariant buf[..i] == old(Contents)[..i]
        invariant buf[n..] == old(buf[n..])
      {
        buf[i] := data[tail % size];
        tail := tail + 1;
        Contents := Contents[1..];
        i := i + 1;
      }
    }
  }

  /** Two counters less than `size` apart select different slots. */
  lemma SlotsDistinct(t: nat, i: nat, j: nat, size: nat)
    requires size > 0 && i < j < size
    ensures (t + i) % size != (t + j) % size
  {
    var a := t + i;
    var b := t + j;
    if a % size == b % size {
      var k := b / size - a / size;
      DivMod(a, size);
      DivMod(b, size);
      assert j - i == k * size;
      MulBounds(k, size);
    }
  }

  lemma DivMod(a: nat, size: nat)
    requires size > 0
    ensures a == (a / size) * size + a % size
  {
  }

  lemma MulBounds(k: int, size: nat)
    requires size > 0
    ensures k <= 0 ==> k * size <= 0
    ensures k >= 1 ==> k * size >= size
  {
  }
}
