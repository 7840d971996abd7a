/** The bump arena of chimp/mem/Arena.h: a caller-owned buffer of `size`
    bytes at absolute address `base`, handed out front to back. Addresses are
    natural numbers; the alignment is 2 * sizeof(void*) on a 64-bit target. */
module Arena {
  import opened Bytes

  datatype Option<T> = None | Some(value: T)

  /** 2 * sizeof(void*) with 8-byte pointers. */
  const ALIGNMENT: nat := 16

  /** arena_align_forward (and slice_arena_align_forward): rounds an
      address up to the next multiple of the alignment. `p & (alignment - 1)`
      is `p % alignment` for a power of two. */
  function AlignForward(p: nat): (r: nat)
    ensures p <= r < p + ALIGNMENT && r % ALIGNMENT == 0
    ensures p % ALIGNMENT == 0 ==> r == p
  {
    var modulo := p % ALIGNMENT;
    if modulo != 0 then p + ALIGNMENT - modulo else p
  }

  /** The rounded address is the least aligned one at or above `p`, and
      rounding twice is rounding once. */
  lemma {:induction false} AlignForwardLeast(p: nat, q: nat)
    requires p <= q && q % ALIGNMENT == 0
    ensures AlignForward(p) <= q
    ensures AlignForward(AlignForward(p)) == AlignForward(p)
  {
  }

  /** The `aligned_offset` arena_alloc computes: how far into the buffer
      the first aligned address at or after `base + offset` is. */
  function AlignedOffset(base: nat, offset: nat): (a: nat)
    ensures offset <= a < offset + ALIGNMENT && (base + a) % ALIGNMENT == 0
  {
    AlignForward(base + offset) - base
  }

  /** A run of bytes inside the buffer, by offset. */
  datatype Region = Region(start: nat, size: nat)

  /** The outcome of one allocation: the region handed out, if any, and the
      arena's offset afterwards. */
  datatype Bump = Bump(region: Option<Region>, offset: nat)

  /** arena_alloc on the arena's numbers, as written: the request for `n`
      bytes succeeds iff the aligned region ends within the arena, and then
      the offset grows by `n` (not to the region's end). */
  function Allocate(base: nat, size: nat, offset: nat, n: nat): (r: Bump)
    ensures r.region.Some? <==> AlignedOffset(base, offset) + n <= size
    ensures r.region.Some? ==>
      r.region.value.start == AlignedOffset(base, offset) && r.region.value.size == n &&
      r.region.value.start >= offset && (base + r.region.value.start) % ALIGNMENT == 0 &&
      r.region.value.start + n <= size && r.offset == offset + n && r.offset <= size
    ensures r.region.None? ==> r.offset == offset
  {
    var aligned := AlignedOffset(base, offset);
    if aligned + n <= size then Bump(Some(Region(aligned, n)), offset + n) else Bump(None, offset)
  }

  /** A zero-byte request succeeds whenever the aligned offset is still
      within the arena, and leaves the offset where it was. */
  lemma {:induction false} ZeroSizeAlloc(base: nat, size: nat, offset: nat)
    requires AlignedOffset(base, offset) <= size
    ensures Allocate(base, size, offset, 0) == Bump(Some(Region(AlignedOffset(base, offset), 0)), offset)
  {
  }

  /** An allocation can fill the arena exactly; the next call's requirement
      `offset < size` then no longer holds. */
  lemma {:induction false} ExactFill(base: nat, size: nat)
    requires base % ALIGNMENT == 0 && size > 0
    ensures Allocate(base, size, 0, size).offset == size
  {
    assert AlignedOffset(base, 0) == 0;
  }

  /** One more than the largest `size_t` / `uintptr_t` on a 64-bit target. */
  const WORD: nat := 0x1_0000_0000_0000_0000

  /** arena_alloc with the bounds test and the offset update in 64-bit
      arithmetic, as the C code computes them: `aligned_offset + size` and
      `offset += size` wrap modulo 2^64. */
  function WrappingAllocate(base: nat, size: nat, offset: nat, n: nat): (r: Bump)
    requires offset < WORD && n < WORD
    ensures r.region.Some? <==> (AlignedOffset(base, offset) + n) % WORD <= size
    ensures r.region.Some? ==>
      r.region.value == Region(AlignedOffset(base, offset), n) && r.offset == (offset + n) % WORD
    ensures r.region.None? ==> r.offset == offset
  {
    var aligned := AlignedOffset(base, offset);
    if (aligned + n) % WORD <= size then Bump(Some(Region(aligned, n)), (offset + n) % WORD)
    else Bump(None, offset)
  }

  /** Below the wrap the 64-bit test is the plain one: for every request
      whose end `aligned_offset + n` is a 64-bit number, the code as written
      is `Allocate`. */
  lemma {:induction false} WrappingAgrees(base: nat, size: nat, offset: nat, n: nat)
    requires AlignedOffset(base, offset) + n < WORD
    ensures WrappingAllocate(base, size, offset, n) == Allocate(base, size, offset, n)
  {
    var aligned := AlignedOffset(base, offset);
    assert (aligned + n) % WORD == aligned + n;
    assert (offset + n) % WORD == offset + n;
  }

  /** Which huge requests the wrap lets through: once `aligned_offset + n`
      reaches 2^64 the test compares the wrapped sum, which is below the
      aligned offset, so the request succeeds iff that sum is at most the
      size, and always when the aligned offset is at most `size + 1`. */
  lemma {:induction false} WrapRange(base: nat, size: nat, offset: nat, n: nat)
    requires offset < WORD && n < WORD && AlignedOffset(base, offset) < WORD
    requires AlignedOffset(base, offset) + n >= WORD
    ensures var aligned := AlignedOffset(base, offset);
      (WrappingAllocate(base, size, offset, n).region.Some? <==> aligned + n - WORD <= size) &&
      (aligned <= size + 1 ==> WrappingAllocate(base, size, offset, n).region.Some?)
  {
    var aligned := AlignedOffset(base, offset);
    assert (aligned + n) % WORD == aligned + n - WORD;
  }

  /** A wrapped request can also push the offset forward past the arena:
      at offset 10 of a 64-byte arena at an aligned address, a request of
      2^64 - 16 bytes wraps the test to 0 and succeeds, but `offset + n`
      stays below 2^64, so the offset becomes 2^64 - 6, far beyond the
      size, and the next call's `offset < size` no longer holds. */
  lemma {:induction false} HugeRequestOvershoots(base: nat)
    requires base % ALIGNMENT == 0
    ensures var r := WrappingAllocate(base, 64, 10, WORD - 16);
      r.region.Some? && r.offset == WORD - 6 && r.offset > 64
  {
    AlignedBase(base, 10);
    assert AlignForward(10) == 16;
    assert (16 + (WORD - 16)) % WORD == 0;
    assert (10 + (WORD - 16)) % WORD == WORD - 6;
  }

  /** Not every huge request gets through: in a 60-byte arena at an aligned
      address with offset 59 the aligned offset is 64, and a request of
      2^64 - 1 bytes wraps the sum to 63, which is over the size. */
  lemma {:induction false} HugeRequestRefused(base: nat)
    requires base % ALIGNMENT == 0
    ensures WrappingAllocate(base, 60, 59, WORD - 1).region.None?
  {
    AlignedBase(base, 59);
    assert AlignForward(59) == 64;
    assert (64 + (WORD - 1)) % WORD == 63;
  }

  /** As written, a huge request wraps the bounds test: in a 64-byte arena
      at an aligned address with offset 10, a request of 2^64 - 1 bytes
      (a length of -1 cast to `size_t`) passes `16 + (2^64 - 1) <= 64`
      after the wrap, is handed a region reaching far past the arena, and
      moves the offset back to 9. `Allocate` refuses it. */
  lemma {:induction false} HugeRequestWraps(base: nat)
    requires base % ALIGNMENT == 0
    ensures var r := WrappingAllocate(base, 64, 10, WORD - 1);
      r.region.Some? && r.region.value.start + r.region.value.size > 64 && r.offset == 9 < 10
    ensures Allocate(base, 64, 10, WORD - 1).region.None?
  {
    AlignedBase(base, 10);
    assert AlignForward(10) == 16;
    assert (16 + (WORD - 1)) % WORD == 15;
    assert (10 + (WORD - 1)) % WORD == 9;
  }

  /** The allocations of `ns` in turn, from `offset`: the region each
      request got, and the offset at the end. Requests keep going after a
      failure, as a caller that ignores NULL would. arena_alloc asserts
      `offset < size` on entry, so a run that reaches `offset == size` (see
      ExactFill) stops the program there in a build with assertions on;
      `Run` goes on applying `Allocate`, as a build with assertions off does. */
  function Run(base: nat, size: nat, offset: nat, ns: seq<nat>): (r: (seq<Option<Region>>, nat))
    ensures |r.0| == |ns| && offset <= r.1
    decreases |ns|
  {
    if ns == [] then ([], offset)
    else
      var b := Allocate(base, size, offset, ns[0]);
      var rest := Run(base, size, b.offset, ns[1..]);
      ([b.region] + rest.0, rest.1)
  }

  predicate Overlap(a: Region, b: Region)
  {
    a.start < b.start + b.size && b.start < a.start + a.size
  }

  /** At an aligned base the aligned offset depends on the offset alone. */
  lemma {:induction false} AlignedBase(base: nat, offset: nat)
    requires base % ALIGNMENT == 0
    ensures AlignedOffset(base, offset) == AlignForward(offset)
  {
    assert (base + offset) % ALIGNMENT == offset % ALIGNMENT;
  }

  /** As written, live regions can overlap: in a 64-byte arena at an aligned
      address, requests of 10, 20 and 5 bytes get [0, 10), [16, 36) and
      [32, 37), because the padding before the second region is not
      consumed. */
  lemma {:induction false} RunOverlaps(base: nat)
    requires base % ALIGNMENT == 0
    ensures var r := Run(base, 64, 0, [10, 20, 5]);
      r.0 == [Some(Region(0, 10)), Some(Region(16, 20)), Some(Region(32, 5))] &&
      Overlap(r.0[1].value, r.0[2].value)
  {
    AlignedBase(base, 0);
    AlignedBase(base, 10);
    AlignedBase(base, 30);
    assert AlignForward(10) == 16 && AlignForward(30) == 32;
    assert [5][1..] == [] && [20, 5][1..] == [5] && [10, 20, 5][1..] == [20, 5];
    assert Run(base, 64, 35, []) == ([], 35);
    var a, b, c := Some(Region(0, 10)), Some(Region(16, 20)), Some(Region(32, 5));
    assert [c] + [] == [c] && [b] + [c] == [b, c] && [a] + [b, c] == [a, b, c];
    assert Run(base, 64, 30, [5]) == ([c], 35);
    assert Run(base, 64, 10, [20, 5]) == ([b, c], 35);
  }

  /** A 64-byte arena at an aligned address: three 10-byte requests succeed
      at offsets 0, 16 and 32 and leave the offset at 30; a 40-byte request
      then fails, since it would end at 72. */
  lemma {:induction false} RunExhausts(base: nat)
    requires base % ALIGNMENT == 0
    ensures var r := Run(base, 64, 0, [10, 10, 10, 40]);
      r.0 == [Some(Region(0, 10)), Some(Region(16, 10)), Some(Region(32, 10)), None] && r.1 == 30
  {
    AlignedBase(base, 0);
    AlignedBase(base, 10);
    AlignedBase(base, 20);
    AlignedBase(base, 30);
    assert AlignForward(10) == 16 && AlignForward(20) == 32 && AlignForward(30) == 32;
    assert [40][1..] == [] && [10, 40][1..] == [40] && [10, 10, 40][1..] == [10, 40];
    assert [10, 10, 10, 40][1..] == [10, 10, 40];
    assert Run(base, 64, 30, []) == ([], 30);
    var a, b, c, d: Option<Region> := Some(Region(0, 10)), Some(Region(16, 10)), Some(Region(32, 10)), None;
    assert [d] + [] == [d] && [c] + [d] == [c, d];
    assert [b] + [c, d] == [b, c, d] && [a] + [b, c, d] == [a, b, c, d];
    assert Run(base, 64, 30, [40]) == ([d], 30);
    assert Run(base, 64, 20, [10, 40]) == ([c, d], 30);
    assert Run(base, 64, 10, [10, 10, 40]) == ([b, c, d], 30);
  }

  /** arena_alloc as evidently intended: the offset moves to the end of the
      region handed out, so the padding is consumed. This is the rule of the
      allocator chimp/mem/Arena.h cites as its reference for the alignment,
      which sets the offset to the aligned offset plus the size. */
  function IntendedAllocate(base: nat, size: nat, offset: nat, n: nat): (r: Bump)
    ensures r.region.Some? <==> AlignedOffset(base, offset) + n <= size
    ensures r.region.Some? ==>
      r.region.value.start == AlignedOffset(base, offset) && r.region.value.size == n &&
      r.region.value.start >= offset && (base + r.region.value.start) % ALIGNMENT == 0 &&
      r.offset == r.region.value.start + n && r.offset <= size
    ensures r.region.None? ==> r.offset == offset
  {
    var aligned := AlignedOffset(base, offset);
    if aligned + n <= size then Bump(Some(Region(aligned, n)), aligned + n) else Bump(None, offset)
  }

  function IntendedRun(base: nat, size: nat, offset: nat, ns: seq<nat>): (r: (seq<Option<Region>>, nat))
    ensures |r.0| == |ns| && offset <= r.1
    decreases |ns|
  {
    if ns == [] then ([], offset)
    else
      var b := IntendedAllocate(base, size, offset, ns[0]);
      var rest := IntendedRun(base, size, b.offset, ns[1..]);
      ([b.region] + rest.0, rest.1)
  }

  /** Every region in `rs` is aligned and lies between the offsets `lo`
      and `hi`. */
  predicate Placed(base: nat, lo: nat, hi: nat, rs: seq<Option<Region>>)
  {
    forall k :: 0 <= k < |rs| && rs[k].Some? ==>
      lo <= rs[k].value.start && rs[k].value.start + rs[k].value.size <= hi &&
      (base + rs[k].value.start) % ALIGNMENT == 0
  }

  /** Each region of a run comes after the ones before it. */
  predicate Ordered(rs: seq<Option<Region>>)
  {
    forall k, m :: 0 <= k < m < |rs| && rs[k].Some? && rs[m].Some? ==>
      rs[k].value.start + rs[k].value.size <= rs[m].value.start
  }

  /** As written, too, every region of a run is aligned and lies within the
      arena, between the starting offset and its end; what fails is only the
      order between them. */
  lemma {:induction false} RunPlaced(base: nat, size: nat, offset: nat, ns: seq<nat>)
    requires offset <= size
    ensures Run(base, size, offset, ns).1 <= size
    ensures Placed(base, offset, size, Run(base, size, offset, ns).0)
    decreases |ns|
  {
    if ns != [] {
      var b := Allocate(base, size, offset, ns[0]);
      RunPlaced(base, size, b.offset, ns[1..]);
      var rest := Run(base, size, b.offset, ns[1..]);
      var rs := [b.region] + rest.0;
      forall k | 0 <= k < |rs| && rs[k].Some?
        ensures offset <= rs[k].value.start && rs[k].value.start + rs[k].value.size <= size
        ensures (base + rs[k].value.start) % ALIGNMENT == 0
      {
        if k > 0 {
          assert rs[k] == rest.0[k - 1];
        }
      }
    }
  }

  /** With the intended offset update a run stays within the arena and every
      region it hands out is aligned and lies between the starting and final
      offsets. */
  lemma {:induction false} IntendedRunPlaced(base: nat, size: nat, offset: nat, ns: seq<nat>)
    requires offset <= size
    ensures IntendedRun(base, size, offset, ns).1 <= size
    ensures Placed(base, offset, IntendedRun(base, size, offset, ns).1, IntendedRun(base, size, offset, ns).0)
    decreases |ns|
  {
    if ns != [] {
      var b := IntendedAllocate(base, size, offset, ns[0]);
      IntendedRunPlaced(base, size, b.offset, ns[1..]);
      var rest := IntendedRun(base, size, b.offset, ns[1..]);
      var rs := [b.region] + rest.0;
      forall k | 0 <= k < |rs| && rs[k].Some?
        ensures offset <= rs[k].value.start && rs[k].value.start + rs[k].value.size <= rest.1
        ensures (base + rs[k].value.start) % ALIGNMENT == 0
      {
        if k > 0 {
          assert rs[k] == rest.0[k - 1];
        }
      }
    }
  }

  /** With the intended offset update no two regions of a run overlap: each
      ends before the next one handed out begins. */
  lemma {:induction false} IntendedRunDisjoint(base: nat, size: nat, offset: nat, ns: seq<nat>)
    requires offset <= size
    ensures Ordered(IntendedRun(base, size, offset, ns).0)
    decreases |ns|
  {
    if ns != [] {
      var b := IntendedAllocate(base, size, offset, ns[0]);
      IntendedRunDisjoint(base, size, b.offset, ns[1..]);
      IntendedRunPlaced(base, size, b.offset, ns[1..]);
      var rest := IntendedRun(base, size, b.offset, ns[1..]);
      var rs := [b.region] + rest.0;
      forall k, m | 0 <= k < m < |rs| && rs[k].Some? && rs[m].Some?
        ensures rs[k].value.start + rs[k].value.size <= rs[m].value.start
      {
        assert rs[m] == rest.0[m - 1];
        if k > 0 {
          assert rs[k] == rest.0[k - 1];
        }
      }
    }
  }

  /** The arena of chimp/mem/Arena.h. */
  class Arena {
    const buffer: array<byte>
    const size: nat
    /** The buffer's absolute address. */
    const base: nat
    var offset: nat

    ghost predicate Valid()
      reads this
    {
      0 < size <= buffer.Length && offset <= size
    }

    /** arena_create: a non-empty arena starting at offset 0; the buffer is
        left as it is. */
    constructor (buffer: array<byte>, size: nat, base: nat)
      requires 0 < size <= buffer.Length
      ensures this.buffer == buffer && this.size == size && this.base == base
      ensures offset == 0 && Valid()
    {
      this.buffer := buffer;
      this.size := size;
      this.base := base;
      offset := 0;
    }

    /** arena_alloc: on success the address of `n` zeroed bytes at the
        aligned offset, every other byte unchanged and the offset grown by
        `n`; on failure None and nothing changed. */
    method Alloc(n: nat) returns (pointer: Option<nat>)
      requires Valid() && offset < size
      modifies this, buffer
      ensures Valid()
      ensures var r := Allocate(base, size, old(offset), n);
        offset == r.offset &&
        (r.region.Some? ==>
          pointer == Some(base + r.region.value.start) &&
          buffer[..] == Splice(old(buffer[..]), r.region.value.start, Zeros(n))) &&
        (r.region.None? ==> pointer == None && buffer[..] == old(buffer[..]))
    {
      var offsetPointer := base + offset;
      var alignedOffset := AlignForward(offsetPointer) - base;
      pointer := None;
      if alignedOffset + n <= size {
        pointer := Some(base + alignedOffset);
        offset := offset + n;
        forall k | alignedOffset <= k < alignedOffset + n {
          buffer[k] := 0;
        }
      }
    }

    /** arena_clear: the arena's `size` bytes become 0, the offset 0. */
    method Clear()
      requires Valid() && offset < size
      modifies this, buffer
      ensures Valid() && offset == 0
      ensures buffer[..] == Splice(old(buffer[..]), 0, Zeros(size))
    {
      forall k | 0 <= k < size {
        buffer[k] := 0;
      }
      offset := 0;
    }
  }
}
