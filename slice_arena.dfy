/** The slice arena of include/allocators/Slice_Arena.h: the bump arena of
    chimp/mem/Arena.h again, except that an allocation returns the pointer
    together with the requested size, and creation accepts an empty arena.
    Alignment and the allocation rule are the ones of module Arena. */
module SliceArena {
  import opened Bytes
  import opened Arena

  /** Arena_Slice: the pointer (None for NULL) and the requested size. */
  datatype Slice = Slice(pointer: Option<nat>, size: nat)

  /** What slice_arena_alloc returns for a request of `n` bytes: the slice
      carries `n` whether or not the allocation succeeded, and its pointer
      is the absolute address of the region handed out. */
  function SliceOf(base: nat, size: nat, offset: nat, n: nat): (s: Slice)
    ensures s.size == n
    ensures s.pointer.Some? <==> AlignedOffset(base, offset) + n <= size
    ensures s.pointer.Some? ==>
      s.pointer.value == base + AlignedOffset(base, offset) && s.pointer.value % ALIGNMENT == 0
  {
    var r := Allocate(base, size, offset, n);
    Slice(if r.region.Some? then Some(base + r.region.value.start) else None, n)
  }

  class SliceArena {
    const buffer: array<byte>
    const size: nat
    /** The buffer's absolute address. */
    const base: nat
    var offset: nat

    ghost predicate Valid()
      reads this
    {
      size <= buffer.Length && offset <= size
    }

    /** slice_arena_create: offset 0; unlike arena_create, `size` may be 0. */
    constructor (buffer: array<byte>, size: nat, base: nat)
      requires size <= buffer.Length
      ensures this.buffer == buffer && this.size == size && this.base == base
      ensures offset == 0 && Valid()
    {
      this.buffer := buffer;
      this.size := size;
      this.base := base;
      offset := 0;
    }

    /** slice_arena_alloc: the slice of `n` bytes; on success the region is
        zeroed, the rest of the buffer unchanged and the offset grown by `n`;
        on failure a NULL slice and nothing changed. */
    method Alloc(n: nat) returns (slice: Slice)
      requires Valid() && offset < size
      modifies this, buffer
      ensures Valid()
      ensures slice == SliceOf(base, size, old(offset), n)
      ensures var r := Allocate(base, size, old(offset), n);
        offset == r.offset &&
        (r.region.Some? ==> buffer[..] == Splice(old(buffer[..]), r.region.value.start, Zeros(n))) &&
        (r.region.None? ==> buffer[..] == old(buffer[..]))
    {
      var pointer: Option<nat> := None;
      var offsetPointer := base + offset;
      var alignedOffset := AlignForward(offsetPointer) - base;
      if alignedOffset + n <= size {
        pointer := Some(base + alignedOffset);
        offset := offset + n;
        forall k | alignedOffset <= k < alignedOffset + n {
          buffer[k] := 0;
        }
      }
      slice := Slice(pointer, n);
    }

    /** slice_arena_clear: the arena's `size` bytes become 0, the offset 0. */
    method Clear()
      requires Valid() && offset < size
      modifies this, buffer
      ensures Valid() && offset == 0
      ensures buffer[..] == Splice(old(buffer[..]), 0, Zeros(size))
    {
      forall k | 0 <= k < size {
        buffer[k] := 0;
      }
      offset := 0;
    }
  }
}
