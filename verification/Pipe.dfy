/** The pipe's ring buffer (kernel/src/fs/pipe.rs).

    A circular array whose `head == tail` state is resolved by a three-valued status. It refines a
    bounded FIFO queue; ghost logs record everything ever written and read. */
module Pipes {
  import opened Wrappers

  const RING_BUFFER_SIZE := 1024

  datatype Status = Full | Empty | Normal

  /** The cell of the `i`th queued byte: the queue starts at `head` and wraps once. */
  function Cell(head: nat, i: nat): nat {
    if head + i < RING_BUFFER_SIZE then head + i else head + i - RING_BUFFER_SIZE
  }

  /** `n` cells from `head` on. */
  ghost function Window(cells: seq<Byte>, head: nat, n: nat): (r: seq<Byte>)
    requires |cells| == RING_BUFFER_SIZE && head < RING_BUFFER_SIZE && n <= RING_BUFFER_SIZE
    ensures |r| == n && forall i :: 0 <= i < n ==> r[i] == cells[Cell(head, i)]
  {
    seq(n, i requires 0 <= i < n => cells[Cell(head, i)])
  }

  /** Number of bytes between the indices. */
  function Queued(head: nat, tail: nat, status: Status): int {
    if status == Empty then 0
    else if tail > head then tail - head
    else tail + RING_BUFFER_SIZE - head
  }

  /** Full or empty exactly when the indices meet, and the queue is what lies between them. */
  ghost predicate IsQueue(cells: seq<Byte>, head: nat, tail: nat, status: Status, queue: seq<Byte>) {
    && |cells| == RING_BUFFER_SIZE && head < RING_BUFFER_SIZE && tail < RING_BUFFER_SIZE
    && (head == tail <==> status != Normal)
    && |queue| == Queued(head, tail, status)
    && (forall i :: 0 <= i < |queue| ==> queue[i] == cells[Cell(head, i)])
  }

  /** The queue after a byte is appended; a full ring starts over. */
  ghost function WithByte(status: Status, queue: seq<Byte>, byte: Byte): seq<Byte> {
    if status == Full then [byte] else queue + [byte]
  }

  /** The queue after a byte is removed; an empty ring has gone round. */
  ghost function WithoutByte(cells: seq<Byte>, head: nat, status: Status, queue: seq<Byte>): seq<Byte>
    requires |cells| == RING_BUFFER_SIZE && head < RING_BUFFER_SIZE && (status != Empty ==> queue != [])
  {
    if status == Empty then Window(cells, (head + 1) % RING_BUFFER_SIZE, RING_BUFFER_SIZE - 1) else queue[1..]
  }

  lemma Appended(cells: seq<Byte>, head: nat, tail: nat, status: Status, queue: seq<Byte>, byte: Byte)
    requires IsQueue(cells, head, tail, status, queue)
    ensures tail < |cells| && (queue == [] <==> status == Empty)
    ensures var tail' := (tail + 1) % RING_BUFFER_SIZE;
            IsQueue(cells[tail := byte], head, tail', if tail' == head then Full else Normal,
                    WithByte(status, queue, byte))
  {
    NextCell(tail);
    if status == Full {
      assert Cell(head, 0) == tail;
    } else {
      assert Cell(head, |queue|) == tail && forall i :: 0 <= i < |queue| ==> Cell(head, i) != tail;
    }
  }

  lemma Removed(cells: seq<Byte>, head: nat, tail: nat, status: Status, queue: seq<Byte>)
    requires IsQueue(cells, head, tail, status, queue)
    ensures head < |cells| == RING_BUFFER_SIZE && (queue == [] <==> status == Empty)
    ensures status != Empty ==> queue[0] == cells[head]
    ensures var head' := (head + 1) % RING_BUFFER_SIZE;
            IsQueue(cells, head', tail, if head' == tail then Empty else Normal,
                    WithoutByte(cells, head, status, queue))
    ensures status == Empty ==> |WithoutByte(cells, head, status, queue)| == RING_BUFFER_SIZE - 1
  {
    NextCell(head);
    assert Cell(head, 0) == head;
  }

  /** An index moves on to the next cell. */
  lemma NextCell(at: nat)
    requires at < RING_BUFFER_SIZE
    ensures (at + 1) % RING_BUFFER_SIZE == Cell(at, 1) < RING_BUFFER_SIZE
    ensures forall i :: 0 <= i < RING_BUFFER_SIZE ==> Cell(Cell(at, 1), i) == Cell(at, i + 1)
  {}

  /** Nothing is lost, reordered or invented: what was written is what was read and then what is queued. */
  ghost predicate IsHistory(written: seq<Byte>, taken: seq<Byte>, queue: seq<Byte>) {
    written == taken + queue
  }

  lemma HistoryWritten(written: seq<Byte>, taken: seq<Byte>, status: Status, queue: seq<Byte>, byte: Byte)
    requires IsHistory(written, taken, queue) && (queue == [] <==> status == Empty)
    ensures IsHistory(written + [byte], taken, WithByte(status, queue, byte)) <==> status != Full
  {
    if status == Full {
      assert |written + [byte]| != |taken + [byte]|;
    }
  }

  lemma HistoryRead(written: seq<Byte>, taken: seq<Byte>, cells: seq<Byte>, head: nat, status: Status, queue: seq<Byte>)
    requires IsHistory(written, taken, queue) && (queue == [] <==> status == Empty)
    requires |cells| == RING_BUFFER_SIZE && head < RING_BUFFER_SIZE && (status != Empty ==> queue[0] == cells[head])
    ensures IsHistory(written, taken + [cells[head]], WithoutByte(cells, head, status, queue)) <==> status != Empty
  {
    if status == Empty {
      assert |written| == |taken|;
    }
  }

  class PipeRingBuffer {
    var arr: array<Byte>
    var head: nat
    var tail: nat
    var status: Status
    ghost var queue: seq<Byte>
    ghost var written: seq<Byte>
    ghost var taken: seq<Byte>

    function AvailableRead(): (n: nat)
      requires head < RING_BUFFER_SIZE && tail < RING_BUFFER_SIZE
      reads this
    {
      Queued(head, tail, status)
    }

    function AvailableWrite(): (n: nat)
      requires Valid()
      reads this, arr
      ensures AvailableRead() + n == 1024
    {
      if status == Full then 0 else RING_BUFFER_SIZE - AvailableRead()
    }

    ghost predicate Ring()
      reads this, arr
    {
      arr.Length == RING_BUFFER_SIZE && IsQueue(arr[..], head, tail, status, queue)
    }

    ghost predicate InOrder()
      reads this
    {
      IsHistory(written, taken, queue)
    }

    ghost predicate Valid()
      reads this, arr
    {
      Ring() && InOrder()
    }

    constructor ()
      ensures Valid() && fresh(arr)
      ensures queue == [] && written == [] && taken == []
      ensures arr.Length == 1024 && forall i :: 0 <= i < 1024 ==> arr[i] == 0
    {
      arr := new Byte[RING_BUFFER_SIZE](_ => 0);
      head, tail, status := 0, 0, Empty;
      queue, written, taken := [], [], [];
    }

    /** Appends a byte, unless the ring is full: then all it held is lost. */
    method WriteByte(byte: Byte)
      requires Ring()
      modifies this, arr
      ensures Ring() && arr == old(arr) && head == old(head) && taken == old(taken)
      ensures queue == WithByte(old(status), old(queue), byte) && written == old(written) + [byte]
      ensures old(InOrder()) ==> (InOrder() <==> old(status) != Full)
    {
      hide IsQueue, IsHistory;
      ghost var cells := arr[..];
      Appended(cells, head, tail, status, queue, byte);
      if InOrder() {
        HistoryWritten(written, taken, status, queue, byte);
      }
      hide WithByte;
      queue, written := WithByte(status, queue, byte), written + [byte];
      status := Normal;
      arr[tail] := byte;
      assert arr[..] == cells[tail := byte];
      tail := (tail + 1) % RING_BUFFER_SIZE;
      if tail == head {
        status := Full;
      }
    }

    /** Removes the oldest byte, unless the ring is empty: then 1023 stale bytes come up for reading. */
    method ReadByte() returns (c: Byte)
      requires Ring()
      modifies this
      ensures Ring() && arr == old(arr) && tail == old(tail) && written == old(written) && taken == old(taken) + [c]
      ensures old(head) < RING_BUFFER_SIZE && (old(status) != Empty ==> old(queue) != [] && c == old(queue)[0])
      ensures c == arr[old(head)] && queue == WithoutByte(arr[..], old(head), old(status), old(queue))
      ensures old(InOrder()) ==> (InOrder() <==> old(status) != Empty)
    {
      hide IsQueue, IsHistory, WithoutByte;
      ghost var cells := arr[..];
      Removed(cells, head, tail, status, queue);
      if InOrder() {
        HistoryRead(written, taken, cells, head, status, queue);
      }
      queue := WithoutByte(cells, head, status, queue);
      status := Normal;
      c := arr[head];
      head := (head + 1) % RING_BUFFER_SIZE;
      if head == tail {
        status := Empty;
      }
      taken := taken + [c];
    }

    /** Fills a prefix of `buf` with the oldest queued bytes. */
    method Read(buf: array<Byte>) returns (n: nat)
      requires Valid() && buf != arr
      modifies this, buf
      ensures Valid() && arr == old(arr) && written == old(written)
      ensures n == Min(old(AvailableRead()), buf.Length) == Min(|old(queue)|, buf.Length)
      ensures buf[..] == old(queue)[..n] + old(buf[..])[n..]
      ensures queue == old(queue)[n..] && taken == old(taken) + old(queue)[..n]
    {
      var canRead := AvailableRead();
      if canRead == 0 {
        assert queue == [];
        return 0;
      }
      canRead := Min(canRead, buf.Length);
      for i := 0 to canRead
        invariant Valid() && arr == old(arr) && written == old(written)
        invariant queue == old(queue)[i..]
        invariant forall k :: 0 <= k < buf.Length ==> buf[k] == if k < i then old(queue)[k] else old(buf[k])
        invariant taken == old(taken) + old(queue)[..i]
      {
        var c := ReadByte();
        buf[i] := c;
        assert old(queue)[..i + 1] == old(queue)[..i] + [c];
      }
      return canRead;
    }

    /** Queues the longest prefix of `buf` that fits. */
    method Write(buf: seq<Byte>) returns (n: nat)
      requires Valid()
      modifies this, arr
      ensures Valid() && arr == old(arr) && taken == old(taken)
      ensures |old(queue)| <= 1024 && n == Min(old(AvailableWrite()), |buf|) == Min(1024 - |old(queue)|, |buf|)
      ensures queue == old(queue) + buf[..n] && written == old(written) + buf[..n]
    {
      var canWrite := AvailableWrite();
      if canWrite == 0 {
        return 0;
      }
      canWrite := Min(canWrite, |buf|);
      for i := 0 to canWrite
        invariant Valid() && arr == old(arr) && taken == old(taken)
        invariant queue == old(queue) + buf[..i] && written == old(written) + buf[..i]
      {
        WriteByte(buf[i]);
        assert buf[..i + 1] == buf[..i] + [buf[i]];
      }
      return canWrite;
    }
  }
}
