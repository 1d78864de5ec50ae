/** The growing byte buffer that the parser keeps its unparsed bytes in. */
module BufferMemory {
  import opened Bytes

  /** Rounds up to a multiple of 128: the mask of IDEVICE_MEM_ALIGN for a power of two. */
  function MemAlign128(v: nat): (r: nat)
    ensures v <= r < v + 128 && r % 128 == 0
  {
    (v + 127) / 128 * 128
  }

  class BufferMemory {
    var data: array<byte>
    var size: nat

    ghost predicate Valid()
      reads this
    {
      size <= data.Length
    }

    ghost function Contents(): (s: seq<byte>)
      requires Valid()
      reads this, data
      ensures |s| == size
    {
      data[..size]
    }

    lemma SliceOfContents(from: nat, to: nat)
      requires Valid() && from <= to <= size
      ensures data[from..to] == Contents()[from..to]
    {
    }

    constructor ()
      ensures Valid() && Contents() == [] && fresh(data)
    {
      data := new byte[0];
      size := 0;
    }

    /** Reserves room at the end and returns where it starts; every byte held before is still there. */
    method Allocate(requested: nat) returns (at: nat)
      requires Valid()
      modifies this
      ensures Valid() && (data == old(data) || fresh(data))
      ensures at == old(size) && size == at + requested
      ensures data[..at] == old(Contents())
      ensures if requested <= old(data.Length - size) then data == old(data) else data.Length == MemAlign128(size)
    {
      if data.Length - size < requested {
        Reserve(size + requested);
      }
      at := size;
      size := size + requested;
    }

    /** Moves to a larger block that starts with the bytes of the old one. */
    method Reserve(capacity: nat)
      requires Valid() && data.Length < capacity
      modifies this`data
      ensures Valid() && fresh(data)
      ensures data.Length == MemAlign128(capacity)
      ensures data[..old(data.Length)] == old(data[..])
    {
      var block := new byte[MemAlign128(capacity)];
      var i := 0;
      while i < data.Length
        invariant data == old(data) && data[..] == old(data[..])
        invariant i <= data.Length <= block.Length && fresh(block)
        invariant block[..i] == data[..i]
      {
        block[i] := data[i];
        i := i + 1;
      }
      assert data[..data.Length] == data[..];
      data := block;
    }

    /** The overlapping move of the parser: the `count` bytes from `from` on go to the front, then are all there is. */
    method ShiftDown(from: nat, count: nat)
      requires Valid() && from + count == size
      modifies this`size, data
      ensures Valid() && size == count
      ensures Contents() == old(Contents())[from..]
    {
      ghost var before := data[..];
      var i := 0;
      while i < count
        invariant i <= count
        invariant forall k | 0 <= k < i :: data[k] == before[from + k]
        invariant forall k | i <= k < data.Length :: data[k] == before[k]
      {
        data[i] := data[from + i];
        i := i + 1;
      }
      SetSize(count);
    }

    method SetSize(newSize: nat)
      requires newSize <= data.Length
      modifies this`size
      ensures Valid() && size == newSize
    {
      size := newSize;
    }
  }
}
