/** One stored key/value pair (src/core/entry.h, src/core/entry.cpp, src/core/clock.h). */
module Entries {
  import opened Basics

  /** An Entry*: null, or the index of a block of the pool's slab. */
  datatype Ptr = Null | Ref(block: nat)

  /** The spill blocks now allocated with new[]: their bytes by address. */
  type Heap = map<nat, string>

  const INLINE_CAP: nat := 32
  const NO_EXPIRY: int := -1
  const U32: nat := 0x1_0000_0000

  /** The union of the inline bytes and the pointer to a spill block. */
  datatype Payload = InlineBuf(bytes: string) | BufPtr(addr: nat)

  datatype Entry = Entry(
    next: Ptr,
    expiresAtMs: int,
    hash: nat,
    lruClock: nat,
    keyLen: nat,
    valLen: nat,
    buf: Payload)

  /** The discriminant of the union: payloads over the inline capacity live on the heap. */
  predicate Spilled(e: Entry) {
    (e.keyLen + e.valLen) % U32 > INLINE_CAP
  }

  /** The union holds the member its discriminant names, with room for the key and the value. */
  predicate Sound(e: Entry, heap: Heap) {
    && e.keyLen + e.valLen < U32
    && e.lruClock < U32
    && (if Spilled(e)
        then e.buf.BufPtr? && e.buf.addr in heap && |heap[e.buf.addr]| >= e.keyLen + e.valLen
        else e.buf.InlineBuf? && |e.buf.bytes| == INLINE_CAP)
  }

  function Bytes(e: Entry, heap: Heap): (s: string)
    requires Sound(e, heap)
    ensures |s| >= e.keyLen + e.valLen
  {
    if Spilled(e) then heap[e.buf.addr] else e.buf.bytes
  }

  function Key(e: Entry, heap: Heap): (k: string)
    requires Sound(e, heap)
  {
    Bytes(e, heap)[..e.keyLen]
  }

  function Value(e: Entry, heap: Heap): (v: string)
    requires Sound(e, heap)
  {
    Bytes(e, heap)[e.keyLen..e.keyLen + e.valLen]
  }

  /** What a client of the table can learn about an entry besides its key. */
  datatype Rec = Rec(value: string, expiresAt: int, lru: nat)

  function RecOf(e: Entry, heap: Heap): Rec
    requires Sound(e, heap)
  {
    Rec(Value(e, heap), e.expiresAtMs, e.lruClock)
  }

  /** The deadline test: strictly past it, and never for a key without one. */
  predicate Expired(expiresAt: int, now: int) {
    expiresAt != NO_EXPIRY && now > expiresAt
  }

  function Zeros(n: nat): (s: string)
    ensures |s| == n
  {
    seq(n, _ => '\0')
  }

  /** Copying the key and then the value behind it makes an entry that reads back as both. */
  lemma FilledReadsBack(room: string, key: string, value: string)
    requires |key| + |value| <= |room|
    ensures var s := CopyAt(CopyAt(room, 0, key), |key|, value);
            s[..|key|] == key && s[|key|..|key| + |value|] == value
  {
    var t := CopyAt(room, 0, key);
    assert t[..|key|] == t[0..0 + |key|] == key;
  }
}
