/** The byte queue of a connection (src/core/buffer.h, src/core/buffer.cpp). */
module Buffers {
  import opened Basics

  const DEFAULT_CAPACITY: nat := 16 * 1024

  /** What a request for `n` writable bytes may leave of the capacity: the same, or, only when the
      bytes held and asked for did not fit, less than twice them. */
  ghost predicate GrowsTo(capacity: nat, size: nat, n: nat, capacity': nat) {
    if size + n <= capacity then capacity' == capacity
    else capacity' == Max(2 * capacity, size + n) && size + n <= capacity' < 2 * (size + n)
  }

  class Buffer {
    var buf: string
    var readIdx: nat
    var writeIdx: nat

    predicate Valid()
      reads this
    {
      readIdx <= writeIdx <= |buf|
    }

    /** The bytes queued. */
    function Readable(): string
      requires Valid()
      reads this
    {
      buf[readIdx..writeIdx]
    }

    function Size(): nat
      requires Valid()
      reads this
    {
      writeIdx - readIdx
    }

    predicate Empty()
      reads this
    {
      readIdx == writeIdx
    }

    function Capacity(): nat
      reads this
    {
      |buf|
    }

    function WritableBytes(): nat
      requires Valid()
      reads this
    {
      |buf| - writeIdx
    }

    constructor (initialCapacity: nat)
      ensures Valid() && Readable() == "" && Capacity() == initialCapacity
    {
      buf := seq(initialCapacity, _ => '\0');
      readIdx, writeIdx := 0, 0;
    }

    /** Makes room at the tail by moving the bytes to the front, and by growing when that is not enough. */
    method EnsureWritable(n: nat)
      requires Valid()
      modifies this
      ensures Valid() && Readable() == old(Readable()) && WritableBytes() >= n
      ensures if old(WritableBytes()) >= n then Capacity() == old(Capacity())
              else GrowsTo(old(Capacity()), old(Size()), n, Capacity())
    {
      if WritableBytes() >= n {
        return;
      }
      Compact();
      if WritableBytes() >= n {
        return;
      }
      var size := Max(2 * Capacity(), Size() + n);
      ghost var held := Readable();
      buf := buf + seq(size - |buf|, _ => '\0');
      assert Readable() == held;
    }

    /** memmove to the front. */
    method Compact()
      requires Valid()
      modifies this
      ensures Valid() && Readable() == old(Readable()) && Capacity() == old(Capacity()) && readIdx == 0
    {
      var curSize := Size();
      buf := CopyAt(buf, 0, buf[readIdx..writeIdx]);
      writeIdx := curSize;
      readIdx := 0;
    }

    /** Bytes land at the write position; they are not queued until committed. */
    method Write(bytes: string)
      requires Valid() && |bytes| <= WritableBytes()
      modifies this`buf
      ensures Valid() && Readable() == old(Readable()) && Capacity() == old(Capacity())
      ensures buf[writeIdx..writeIdx + |bytes|] == bytes
    {
      var was := buf;
      buf := CopyAt(buf, writeIdx, bytes);
      assert buf[..writeIdx] == was[..writeIdx];
      assert Readable() == buf[..writeIdx][readIdx..] == was[..writeIdx][readIdx..];
    }

    method Commit(n: nat)
      requires Valid() && n <= WritableBytes()
      modifies this`writeIdx
      ensures Valid() && Readable() == old(Readable()) + buf[old(writeIdx)..old(writeIdx) + n]
    {
      writeIdx := writeIdx + n;
    }

    method Consume(n: nat)
      requires Valid() && n <= Size()
      modifies this`readIdx, this`writeIdx
      ensures Valid() && Readable() == old(Readable())[n..]
    {
      readIdx := readIdx + n;
      if Empty() {
        readIdx, writeIdx := 0, 0;
      }
    }

    method Append(bytes: string)
      requires Valid()
      modifies this
      ensures Valid() && Readable() == old(Readable()) + bytes
      ensures if old(WritableBytes()) >= |bytes| then Capacity() == old(Capacity())
              else GrowsTo(old(Capacity()), old(Size()), |bytes|, Capacity())
    {
      if |bytes| == 0 {
        return;
      }
      EnsureWritable(|bytes|);
      Write(bytes);
      Commit(|bytes|);
    }

    method AppendByte(c: char)
      requires Valid()
      modifies this
      ensures Valid() && Readable() == old(Readable()) + [c]
    {
      EnsureWritable(1);
      buf := buf[writeIdx := c];
      Commit(1);
    }

    method Clear()
      modifies this`readIdx, this`writeIdx
      ensures Valid() && Readable() == "" && Capacity() == old(Capacity())
    {
      readIdx, writeIdx := 0, 0;
    }
  }
}
