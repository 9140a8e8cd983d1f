/** Net/Buffer.h, Net/Buffer.cc: a growing, compacting array that is a queue of bytes. */
module Buffer {
  import opened Sequences

  const K_CHEAP_PREPEND: nat := 8
  const K_INITIAL_SIZE: nat := 1024
  /** The size of `readFd`'s overflow area on the stack. */
  const EXTRA_SIZE: nat := 65535

  function Max(a: nat, b: nat): nat {
    if a < b then b else a
  }

  /** The elements are bytes; the HTTP parser sees them as characters, the codec as numbers. */
  class Buffer<T(0)> {
    var store: array<T>
    var readIdx: nat
    var writeIdx: nat

    /** The storage at construction and the largest readable length there has been. */
    ghost var initial: nat
    ghost var peak: nat

    /** The index invariant. */
    ghost predicate WellFormed()
      reads this
    {
      K_CHEAP_PREPEND <= readIdx <= writeIdx <= store.Length
    }

    /** The storage never exceeds its initial size or 8 plus twice the peak readable length. */
    ghost predicate Bounded()
      reads this
    {
      writeIdx - readIdx <= peak && store.Length <= Max(initial, K_CHEAP_PREPEND + 2 * peak)
    }

    ghost predicate Valid()
      reads this
    {
      WellFormed() && Bounded()
    }

    ghost function Contents(): seq<T>
      requires WellFormed()
      reads this, store
    {
      store[readIdx..writeIdx]
    }

    constructor (initialSize: nat)
      ensures Valid() && fresh(store) && Contents() == []
      ensures peak == 0 && initial == store.Length == K_CHEAP_PREPEND + initialSize
    {
      store := new T[K_CHEAP_PREPEND + initialSize];
      readIdx, writeIdx := K_CHEAP_PREPEND, K_CHEAP_PREPEND;
      initial, peak := K_CHEAP_PREPEND + initialSize, 0;
    }

    function ReadableBytes(): (n: nat)
      requires WellFormed()
      reads this, store
      ensures n == |Contents()|
    {
      writeIdx - readIdx
    }

    function WriteableBytes(): nat
      requires WellFormed()
      reads this
    {
      store.Length - writeIdx
    }

    function Peek(): seq<T>
      requires WellFormed()
      reads this, store
    {
      store[readIdx..writeIdx]
    }

    /** Dropping the first `len` bytes; dropping all of them also frees the space in front. */
    method Retrieve(len: nat)
      requires Valid()
      modifies this`readIdx, this`writeIdx
      ensures Valid()
      ensures Contents() == if len < |old(Contents())| then old(Contents())[len..] else []
      ensures len >= |old(Contents())| ==> readIdx == writeIdx == K_CHEAP_PREPEND
    {
      if len < ReadableBytes() {
        readIdx := readIdx + len;
      } else {
        RetrieveAll();
      }
    }

    method RetrieveAll()
      requires Valid()
      modifies this`readIdx, this`writeIdx
      ensures Valid() && Contents() == [] && readIdx == writeIdx == K_CHEAP_PREPEND
    {
      readIdx, writeIdx := K_CHEAP_PREPEND, K_CHEAP_PREPEND;
    }

    /** Moves the read position to an index before the write position, as the source asserts: from inside the
        readable part that dequeues; from before it, bytes become readable again, and the buffer stays well
        formed unless the index is in the reserved space. */
    method RetrieveUntilIdx(index: nat)
      requires Valid() && index <= writeIdx
      modifies this`readIdx, this`peak
      ensures readIdx == index && store[index..writeIdx] == old(store[index..writeIdx])
      ensures Valid() <==> index >= K_CHEAP_PREPEND
      ensures index >= old(readIdx) ==> Contents() == old(Contents())[index - old(readIdx)..] && peak == old(peak)
      ensures K_CHEAP_PREPEND <= index < old(readIdx) ==> Contents() == old(store[index..readIdx]) + old(Contents())
    {
      readIdx := readIdx + (index - readIdx);
      peak := Max(peak, writeIdx - readIdx);
    }

    method RetrieveAsString(len: nat) returns (res: seq<T>)
      requires Valid() && len <= ReadableBytes()
      modifies this`readIdx, this`writeIdx
      ensures Valid() && res + Contents() == old(Contents()) && |res| == len
    {
      res := store[readIdx..readIdx + len];
      Retrieve(len);
    }

    /** Makes room for `len` more bytes: by a larger array when even the space in front does not help,
        and otherwise by moving the readable bytes down, onto themselves where the two stretches overlap. */
    method MakeSpace(len: nat)
      requires WellFormed() && WriteableBytes() < len
      modifies this`store, this`readIdx, this`writeIdx, store
      ensures WellFormed() && WriteableBytes() >= len && Contents() == old(Contents())
      ensures store == old(store) || (fresh(store) && store.Length < K_CHEAP_PREPEND + 2 * (|Contents()| + len))
    {
      ghost var was := store[..];
      if WriteableBytes() + readIdx < len + K_CHEAP_PREPEND {
        var larger := new T[writeIdx + len];
        forall k | 0 <= k < writeIdx {
          larger[k] := store[k];
        }
        store := larger;
      } else {
        var readable := ReadableBytes();
        for k := 0 to readable
          invariant readIdx == old(readIdx) && writeIdx == old(writeIdx) && store == old(store)
          invariant forall j | K_CHEAP_PREPEND <= j < K_CHEAP_PREPEND + k ::
                      store[j] == was[j + (readIdx - K_CHEAP_PREPEND)]
          invariant forall j | K_CHEAP_PREPEND + k <= j < store.Length :: store[j] == was[j]
        {
          store[K_CHEAP_PREPEND + k] := store[readIdx + k];
        }
        assert store[K_CHEAP_PREPEND..K_CHEAP_PREPEND + readable] == was[readIdx..writeIdx];
        readIdx := K_CHEAP_PREPEND;
        writeIdx := readIdx + readable;
      }
    }

    method EnsureWriteableBytes(len: nat)
      requires WellFormed()
      modifies this`store, this`readIdx, this`writeIdx, store
      ensures WellFormed() && WriteableBytes() >= len && Contents() == old(Contents())
      ensures store == old(store) || (fresh(store) && store.Length < K_CHEAP_PREPEND + 2 * (|Contents()| + len))
    {
      if WriteableBytes() < len {
        MakeSpace(len);
      }
    }

    /** Needs less than `Valid()`: `readFd` calls it with the array filled past the recorded peak. */
    method Append(data: seq<T>)
      requires WellFormed()
      requires store.Length <= Max(initial, K_CHEAP_PREPEND + 2 * Max(peak, ReadableBytes()))
      modifies this`store, this`readIdx, this`writeIdx, this`peak, store
      ensures Valid() && Contents() == old(Contents()) + data
      ensures peak == Max(old(peak), |Contents()|)
      ensures store == old(store) || fresh(store)
    {
      EnsureWriteableBytes(|data|);
      Store(data);
      writeIdx := writeIdx + |data|;
      peak := Max(peak, writeIdx - readIdx);
    }

    /** The `std::copy` of `append`, behind the readable bytes. */
    method Store(data: seq<T>)
      requires WellFormed() && |data| <= WriteableBytes()
      modifies store
      ensures store[readIdx..writeIdx + |data|] == old(Contents()) + data
    {
      forall k | 0 <= k < |data| {
        store[writeIdx + k] := data[k];
      }
      assert store[writeIdx..writeIdx + |data|] == data;
      assert store[readIdx..writeIdx] == old(Contents());
    }

    /** How much one `readv` may deliver: the free space, and the overflow area when that is small. */
    function ReadCapacity(): nat
      requires WellFormed()
      reads this
    {
      if WriteableBytes() < EXTRA_SIZE then WriteableBytes() + EXTRA_SIZE else WriteableBytes()
    }

    /** `readFd` when the kernel delivers `input`: what fits goes behind the readable bytes, the rest
        through the overflow area. */
    method ReadFd(input: seq<T>) returns (n: nat)
      requires Valid() && |input| <= ReadCapacity()
      modifies this`store, this`readIdx, this`writeIdx, this`peak, store
      ensures Valid() && n == |input| && Contents() == old(Contents()) + input
      ensures peak == Max(old(peak), |Contents()|)
      ensures store == old(store) || fresh(store)
    {
      ghost var before := Contents();
      n := |input|;
      var writeable := WriteableBytes();
      var direct := if n <= writeable then n else writeable;
      Store(input[..direct]);
      var extrabuf := input[direct..];
      if n <= writeable {
        assert input[..direct] == input;
        writeIdx := writeIdx + n;
        peak := Max(peak, writeIdx - readIdx);
      } else {
        writeIdx := store.Length;
        Append(extrabuf);
        Assoc(before, input[..direct], extrabuf);
        assert input == input[..direct] + extrabuf;
      }
    }
  }
}
