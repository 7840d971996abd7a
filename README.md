# chimplib core in Dafny

A model of three small components of the C library chimplib, each working
on a caller-owned byte buffer:

- **Bounded string builder** (`include/String_Builder.h`). It appends bytes,
  runs of bytes, C strings, signed and unsigned 64-bit decimals and a small
  printf-style template to a fixed buffer, and always keeps one byte spare.
  Module `StringBuilder` holds class `Builder` with the buffer, its capacity
  and the current length. Each write is a method that updates the length and
  the buffer in place. Module `BuilderSpec` defines on values what each
  write appends:
  - `Digits` and `IntText` are the decimal renderings;
  - `Fit` is what a byte-at-a-time writer leaves behind;
  - `Fill`/`Fits` give the outcome of a run of atomic writes;
  - `Chunks` is the list of writes printf performs for a template and its
    arguments.
- **Bump arena** (`chimp/mem/Arena.h`) and its near-duplicate, the **slice
  arena** (`include/allocators/Slice_Arena.h`). A buffer of `size` bytes at
  absolute address `base` is handed out front to back, with every region
  aligned to 16 bytes. Module `Arena` defines the rounding, one allocation
  on the arena's numbers (`Allocate`) and a run of allocations (`Run`), plus
  the class `Arena`. Module `SliceArena` holds the slice variant, which
  returns the requested size together with the pointer.
- **In-memory iterators** (`chimp/strings/String_Iterator.h` and
  `chimp/strings/Byte_Iterator.h`). The two files hold the same code under
  two names: a cursor over a read-only run of bytes that tracks the offset
  and the 1-based line and column of the next byte. Module `Iterators` holds
  one shared class `Iterator`.

The model follows the code as written:
- `write_int` renders -9..-1 as `'-'` followed by the byte `'0' + v`, so -5
  becomes `"-+"`.
- `"%%"` in a template is copied as two `'%'` bytes, like every other
  unknown specifier.
- `arena_alloc` grows the offset by the requested size from the old offset,
  not from the aligned start, so the padding is not consumed and regions can
  overlap.

Two of these are evidently not what the authors meant, and "## Findings"
logs them with a corrected model beside the one of the code:
- The general path of `write_int` (include/String_Builder.h:114-137)
  renders every v <= -10 as `'-'` and the digits of |v|. The -9..-1 fast
  path is a shortcut of that rule and should give `"-5"` for -5.
- chimp/mem/Arena.h:31 names its reference allocator, which moves the
  offset to the aligned offset plus the size. With that rule, regions
  never overlap.

`"%%"` is not claimed as a bug. It follows from the default branch of
printf's switch (include/String_Builder.h:240-244), which passes every byte
after a `'%'` that is not d, i, u, c or s through together with its `'%'`;
nothing in the code treats `'%'` specially there. `PercentExample` shows the result for `"100%% done"`.

A third finding concerns 64-bit arithmetic, which the rest of the model
leaves unbounded. The bounds test `aligned_offset + size <= arena->size`
wraps for huge requests. Such a request then succeeds iff the wrapped sum
is at most the size. After a success, `offset += size` either wraps the
offset back below where it was or, when offset + size stays below 2^64,
puts it far past the arena's end. `WrappingAllocate` models that
arithmetic. Everywhere else the model uses the unbounded test
of `Allocate`.

Every `assert(...)` on entry to a C function becomes a `requires` clause.
Success and failure are `bool` results (`true` for
`STRING_BUILDER_ERROR_NONE`). A NULL pointer is `None`.

## Model

| member | source | states |
|---|---|---|
| StringBuilder.Builder.constructor | include/String_Builder.h:22-35 | takes any capacity from 1 up to the buffer's length; length 0; the first capacity bytes become 0 and the rest of the buffer is unchanged, so the content is NUL-terminated |
| StringBuilder.Builder.WriteByte | include/String_Builder.h:45-55 | succeeds iff old length + 1 < capacity; on success the buffer is the old one with the byte at the old length and the length is one more; on failure nothing changes |
| StringBuilder.Builder.WriteBytes | include/String_Builder.h:69-83 | atomic: fails iff old length + count >= capacity and then changes nothing; otherwise the bytes are copied to [length, length + count), the length grows by count, and no other byte changes |
| StringBuilder.Builder.WriteString | include/String_Builder.h:86-92 | write_bytes of the bytes before the terminator: the same all-or-nothing outcome |
| StringBuilder.Builder.KeepsZeroTail | include/String_Builder.h:48-53 | any state reached by appending to a NUL-terminated content is NUL-terminated again: every byte from the new length up to the capacity is 0 |
| StringBuilder.ExtractDigits | include/String_Builder.h:120-125 | the digit loop leaves in the scratch array exactly the decimal digits of the value, least significant first, and their count |
| StringBuilder.Builder.WriteReversed | include/String_Builder.h:133-137 | the emit loop writes the digits most significant first; succeeds iff all fit, and otherwise leaves the longest prefix that keeps the last slot free |
| StringBuilder.Builder.WriteUint | include/String_Builder.h:151-172 | appends the canonical decimal of the value byte by byte (fast path for 0..9 included); succeeds iff it all fits; on failure the digits that fitted stay |
| StringBuilder.Builder.WriteInt | include/String_Builder.h:103-140 | appends IntText(value) byte by byte through all three paths; succeeds iff it fits; on failure a prefix stays |
| StringBuilder.Builder.WritePair | include/String_Builder.h:107-111 | the -9..-1 path: '-' and then the byte '0' + value, the second only if the first succeeded; succeeds iff both fit |
| StringBuilder.Builder.WriteSignedDigits | include/String_Builder.h:114-139 | the general path: appends '-' for negatives and then the digits of the magnitude, stopping at the first refused byte |
| StringBuilder.Builder.WriteMinusReversed | include/String_Builder.h:127-137 | '-' and then the digits; if '-' is refused nothing is appended |
| StringBuilder.Builder.WriteConversion | include/String_Builder.h:205-238 | d/i through write_int, u through write_uint, c through write_byte, s through write_string; the outcome is the run of that conversion's writes |
| StringBuilder.Builder.ScanWrite | include/String_Builder.h:188-246 | one turn of the scan performs exactly the next writes of Chunks: a literal byte, a conversion, the two bytes '%' x, or a trailing '%' |
| StringBuilder.Builder.ScanStep | include/String_Builder.h:188-247 | after one turn the scan either goes on with the rest of the run or has stopped with the whole run failed |
| StringBuilder.Builder.Printf | include/String_Builder.h:176-250 | succeeds iff every write of Chunks(fmt, args) fits; what it appends is the run of those writes up to the first failure |
| BuilderSpec.Digits | include/String_Builder.h:155-170 | the rendering is never empty, holds only digit bytes, and starts with '0' only for zero |
| BuilderSpec.DigitsValue | include/String_Builder.h:155-170 | reading the rendering back gives the number |
| BuilderSpec.DigitsOfValue | include/String_Builder.h:155-170 | every digit string without a leading zero is the rendering of its value: the rendering is canonical |
| BuilderSpec.DigitsLength | include/String_Builder.h:117-125 | a number below 10^k has at most k digits |
| BuilderSpec.ScratchSuffices | include/String_Builder.h:115-117 | every uint64 fits the 21-byte scratch of write_uint (20 digits at most), and every int64 magnitude fits the 20-byte scratch of write_int (19 digits at most) |
| BuilderSpec.ExtractStep | include/String_Builder.h:120-125 | one turn of the digit loop moves the last digit of tmp onto the reversed scratch without changing the text they spell together |
| BuilderSpec.ReversedTwice | include/String_Builder.h:166-170 | reading the reversed scratch back to front gives the digits in order |
| BuilderSpec.IntText | include/String_Builder.h:103-137 | the rendering of an int64 is 1 to 20 bytes, each one write_byte accepts |
| BuilderSpec.IntTextCanonical | include/String_Builder.h:114-137 | outside -9..-1 the rendering is '-' for negatives followed by the digits of the magnitude, and reads back as the value, INT64_MIN included |
| BuilderSpec.BoundaryRenderings | include/String_Builder.h:114-172 | UINT64_MAX has 20 digits and INT64_MIN renders as '-' and 19 digits, leaving one byte of each scratch buffer (21 and 20 bytes) unused; INT64_MAX has 19 digits; each reads back as its value |
| BuilderSpec.SmallRenderings | include/String_Builder.h:103-112 | -5 renders as "-+", and -10, 0 and 9 as "-10", "0" and "9" |
| BuilderSpec.SmallNegativeMisrendered | include/String_Builder.h:107-111 | for -9..-1 the rendering is '-' and the byte '0' + v, which is not a signed decimal |
| BuilderSpec.IntendedIntTextCorrect | include/String_Builder.h:107-111 | the corrected rendering reads back as the value for every int64, and differs from the code's exactly on -9..-1 |
| BuilderSpec.Fit | include/String_Builder.h:48-55 | what a byte-at-a-time writer leaves behind never reaches the capacity: one slot always stays spare |
| BuilderSpec.FitPrefix | include/String_Builder.h:133-137 | a byte-at-a-time writer leaves a prefix of its text: all of it iff it fits, and otherwise enough to fill the builder up to the spare slot |
| BuilderSpec.FitCons | include/String_Builder.h:48-55 | writing x and then t byte by byte: x goes in iff it leaves the spare slot free, and the rest continues from one further on |
| BuilderSpec.FillBounds | include/String_Builder.h:72-74 | a run of atomic writes succeeds iff all its bytes fit with one slot spare; it never fills the spare slot; it appends a prefix of all its bytes, a proper one on failure |
| BuilderSpec.FillAppend | include/String_Builder.h:188-247 | running two lists of writes in turn: the second runs only if all of the first succeeded, from the length the first left |
| BuilderSpec.FillOne | include/String_Builder.h:69-83 | a run of one atomic write appends all of it or nothing |
| BuilderSpec.FillSingles | include/String_Builder.h:133-137 | writing a text one byte at a time is the run of its one-byte writes: it succeeds iff all fit, and otherwise leaves the text up to the spare slot |
| BuilderSpec.RunProgress | include/String_Builder.h:188-247 | after writes that succeeded the run goes on from the new length, having appended them |
| BuilderSpec.RunStops | include/String_Builder.h:191-193 | the first write that fails ends the whole run with a failure, keeping what was appended before it |
| BuilderSpec.ThreeByteWrites | tests/string_builder_test.c:13-21 | capacity 3: 'A' and 'B' go in, 'C' is refused, and the content is "AB" |
| BuilderSpec.ThreeRunWrites | tests/string_builder_test.c:23-39 | capacity 4: "AB" and "C" go in, "DEF" is refused as a whole, and the content is "ABC" |
| StringBuilder.WriteByteScenario | tests/string_builder_test.c:13-21 | on the class: a fresh 3-byte builder accepts 'A' and 'B', refuses 'C', and its buffer holds "AB" and the terminator |
| StringBuilder.WriteRunsScenario | tests/string_builder_test.c:23-39 | on the class: a fresh 4-byte builder accepts "AB" and "C", refuses "DEF" as a whole, and its buffer holds "ABC" and the terminator, through write_bytes and write_string alike |
| BuilderSpec.Conversion | include/String_Builder.h:205-238 | a consuming specifier performs at least one write; %c and %s perform exactly one |
| BuilderSpec.Chunks | include/String_Builder.h:188-246 | the writes of printf's scan, in order: none iff the template is empty (the case-by-case behaviour is ChunksAt) |
| BuilderSpec.ChunksAt | include/String_Builder.h:188-246 | the writes for the template from index i: a literal byte, a consuming specifier's conversion, '%' x for any other specifier, or a lone '%' at the end |
| BuilderSpec.LiteralRun | include/String_Builder.h:190-195 | bytes without '%' are copied one write_byte each and consume no argument |
| BuilderSpec.ConsumingSpecifier | include/String_Builder.h:205-238 | a d/i/u/c/s specifier takes the next argument and performs its conversion before the rest |
| BuilderSpec.UnknownSpecifier | include/String_Builder.h:240-245 | every other specifier byte, '%' included, is copied as the two bytes '%' x in one write and consumes no argument |
| BuilderSpec.PercentExample | include/String_Builder.h:240-245 | "100%% done" is copied byte for byte, both '%' included |
| BuilderSpec.CompositionChunks | include/String_Builder.h:188-246 | "%s=%d,%u" with "x", -5, 7 performs the write of "x", then one write_byte per byte of "=", the rendering of -5, "," and "7" |
| BuilderSpec.CompositionExample | include/String_Builder.h:188-246 | that template renders as "x=-+,7" |
| Arena.AlignForward | chimp/mem/Arena.h:33-42 | the rounded address is at or above p, below p + 16, a multiple of 16, and p itself when p is aligned |
| Arena.AlignForwardLeast | include/allocators/Slice_Arena.h:36-45 | the rounding (the same code in both arenas) gives the least aligned address at or above p, and rounding twice is rounding once |
| Arena.AlignedOffset | chimp/mem/Arena.h:57-58 | the aligned offset is at or after the offset, by less than 16, and base + aligned offset is aligned |
| Arena.Allocate | chimp/mem/Arena.h:57-66 | succeeds iff aligned offset + n <= size, in unbounded integers (the 64-bit wrap is in "## Left out"); the region then starts at the aligned offset, is aligned and ends within the arena, and the offset becomes old offset + n <= size; on failure the offset stays |
| Arena.ZeroSizeAlloc | chimp/mem/Arena.h:60-64 | a zero-byte request succeeds whenever the aligned offset is within the arena, and leaves the offset unchanged |
| Arena.ExactFill | chimp/mem/Arena.h:53-62 | one allocation can fill an aligned arena exactly, after which offset < size no longer holds |
| Arena.Run | chimp/mem/Arena.h:57-66 | a run of allocations yields one outcome per request and never moves the offset back (unbounded, as Allocate; with assertions off, since arena_alloc asserts offset < size on entry) |
| Arena.RunPlaced | chimp/mem/Arena.h:57-64 | every region of a run is aligned and lies between the starting offset and the arena's end, and the final offset stays within the arena |
| Arena.RunOverlaps | chimp/mem/Arena.h:57-62 | at an aligned base with size 64, requests of 10, 20 and 5 get [0,10), [16,36) and [32,37), and the last two overlap |
| Arena.RunExhausts | chimp/mem/Arena.h:57-66 | at an aligned base with size 64, three 10-byte requests get offsets 0, 16 and 32 and leave the offset at 30; a 40-byte request then fails |
| Arena.WrappingAllocate | chimp/mem/Arena.h:57-62 | the allocation in 64-bit arithmetic as written: success iff (aligned offset + n) mod 2^64 <= size, the region then at the aligned offset, the offset (offset + n) mod 2^64; on failure the offset stays |
| Arena.WrappingAgrees | chimp/mem/Arena.h:57-62 | for every request whose aligned end is below 2^64, the 64-bit allocation as written is exactly Allocate |
| Arena.HugeRequestWraps | chimp/mem/Arena.h:60-62 | as written in 64 bits, a request of 2^64 - 1 bytes at offset 10 of a 64-byte aligned arena succeeds with a region reaching past the arena and moves the offset back to 9; Allocate refuses it |
| Arena.HugeRequestOvershoots | chimp/mem/Arena.h:60-62 | at offset 10 of a 64-byte aligned arena, a request of 2^64 - 16 bytes wraps the test to 0 and succeeds, and the offset becomes 2^64 - 6, past the arena's end |
| Arena.WrapRange | chimp/mem/Arena.h:60-62 | once aligned offset + n reaches 2^64, the request succeeds iff the wrapped sum is at most the size, and always when the aligned offset is at most size + 1 |
| Arena.HugeRequestRefused | chimp/mem/Arena.h:60-62 | in a 60-byte aligned arena at offset 59 (aligned offset 64), a request of 2^64 - 1 bytes wraps to 63 and is refused |
| Arena.IntendedAllocate | chimp/mem/Arena.h:58-62 | the corrected allocation succeeds under the same condition, and moves the offset to the end of the region it handed out |
| Arena.IntendedRunPlaced | chimp/mem/Arena.h:58-62 | with the correction every region is aligned and lies between the starting and the final offset, and the offset stays within the arena |
| Arena.IntendedRunDisjoint | chimp/mem/Arena.h:58-62 | with the correction every region ends before any later region begins |
| Arena.Arena.constructor | chimp/mem/Arena.h:21-27 | a non-empty arena at offset 0; the buffer is not touched |
| Arena.Arena.Alloc | chimp/mem/Arena.h:51-66 | as Allocate: on success the address base + aligned offset, the region zeroed, every other byte unchanged, and the offset grown by n; on failure None and nothing changed |
| Arena.Arena.Clear | chimp/mem/Arena.h:72-77 | the arena's size bytes become 0 and the offset 0 |
| SliceArena.SliceOf | include/allocators/Slice_Arena.h:57-71 | the slice always carries the requested size; its pointer is present iff aligned offset + n <= size, and is then the aligned absolute address |
| SliceArena.SliceArena.constructor | include/allocators/Slice_Arena.h:26-31 | offset 0; unlike arena_create, size 0 is accepted |
| SliceArena.SliceArena.Alloc | include/allocators/Slice_Arena.h:53-71 | returns SliceOf; on success zeroes the region, leaves every other byte and grows the offset by n; on failure changes nothing |
| SliceArena.SliceArena.Clear | include/allocators/Slice_Arena.h:77-82 | the arena's size bytes become 0 and the offset 0 |
| Iterators.Signed | chimp/strings/String_Iterator.h:58 | a byte read through signed char gives an int in -128..127, congruent to the byte mod 256; it is '\n' iff the byte is, and it is 0 iff the byte is |
| Iterators.Step | chimp/strings/String_Iterator.h:59-67 | one byte further on; after a newline the line goes up and the column is 1, after any other byte the column goes up and the line stays |
| Iterators.PositionCounts | chimp/strings/Byte_Iterator.h:57-67 | after the prefix consumed: the offset is its length, the line is 1 + its newlines, and the column is 1 + the bytes after its last newline (all of them when there is none) |
| Iterators.TwoLines | chimp/strings/String_Iterator.h:57-67 | reading "a\nb" passes positions (1,1,2), (2,2,1) and (3,2,2) |
| Iterators.Iterator.constructor | chimp/strings/String_Iterator.h:34-41 | a non-empty text, offset 0, position (0, 1, 1); the bookkeeping invariant holds |
| Iterators.Iterator.Peek | chimp/strings/String_Iterator.h:75-91 | the current position with the next byte, or 0 at the end; reads the state and changes nothing |
| Iterators.Iterator.Next | chimp/strings/String_Iterator.h:46-71 | returns what peek would have returned; before the end it moves one byte on and updates line and column; at the end it changes nothing; it keeps the position equal to the one reached after the prefix consumed (byte_iterator_next in chimp/strings/Byte_Iterator.h is the same code) |

## Left out

- Addresses are unbounded naturals: wrap-around of `uintptr_t` in
  `arena_align_forward`, and of `base + offset` in the two allocators, is
  not modelled.
- Arena.Allocate: the bounds test `aligned_offset + size <= arena->size`
  (chimp/mem/Arena.h:60) is unbounded here. In C, a request of at least
  2^64 - aligned offset bytes wraps the sum. It then succeeds iff the
  wrapped sum is at most the size, which always holds when the aligned
  offset is at most size + 1 (`WrapRange`, `HugeRequestRefused`). The
  wrapped test is modelled separately by `WrappingAllocate` (see
  "## Findings").
  A memset past the buffer cannot be modelled on an array.
- Arena.Arena.Alloc: decides success with the unbounded test of `Allocate`,
  so the C wrap for requests of 2^64 - aligned offset bytes or more is not
  modelled.
- SliceArena.SliceOf: the pointer is present iff the unbounded
  `aligned offset + n <= size` holds. The 64-bit wrap of the same test at
  include/allocators/Slice_Arena.h:62 is not modelled.
- SliceArena.SliceArena.Alloc: inherits the unbounded test of `SliceOf`, so
  the C wrap for requests of 2^64 - aligned offset bytes or more is not
  modelled.
- StringBuilder.Builder.WriteBytes: `buffer_length + count`
  (include/String_Builder.h:70) is unbounded here. In C, a count of
  2^64 - length or more wraps it below the capacity, and the copy loop then
  runs past the buffer. That case is not modelled.
- Arena.Run: models a build with assertions off. After an allocation fills
  the arena exactly, arena_alloc's `assert(arena->offset < arena->size)`
  (chimp/mem/Arena.h:53) would stop the program; `Run` goes on applying
  `Allocate`. Its offset never moves back only in unbounded arithmetic, as
  in `Allocate`: in C a wrapped huge request moves it back
  (`HugeRequestWraps`).
- The alignment is fixed at 16, which is `2 * sizeof(void*)` with 8-byte
  pointers. `pointer & (alignment - 1)` is modelled as `pointer % 16`.
- `-value` on `INT64_MIN` is undefined behaviour in C. The model takes the
  mathematical magnitude 2^63.
- The `int` index at include/String_Builder.h:77 would truncate past
  2^31 - 1. So would printf's `int` scan index at
  include/String_Builder.h:188, a signed overflow for templates longer than
  2^31 - 1 bytes. Indices are unbounded here.
- The `uint8_t` digit counters of write_int and write_uint are not given a
  width. `ScratchSuffices` shows they never exceed 20.
- Variadic arguments are a typed list (`Arg`) that must match the template
  (`WellTyped`). A mismatched or missing `va_arg` is undefined in C and is
  not modelled.
- A C string or template is the sequence of bytes before its terminator.
  `write_bytes` receives its bytes as a value, so a source run that aliases
  the builder's own buffer is not modelled.
- `char` is taken to be signed. `write_byte` asserts `byte > 0`, so it
  accepts only 1..127. Every literal byte of a template and every `%c`
  argument must meet that precondition.
- Pointers are addresses (natural numbers) and regions are offsets into the
  buffer. Pointer identity, provenance and lifetime are not modelled.
- `Iterators.Step`: the 64-bit `offset`, `line` and `column` counters are
  unbounded here, so their overflow is not modelled.
- The text of an iterator is a value (`seq<byte>`): the caller owns it, and
  changing it during iteration is not modelled.
- The terminal macros, the assertion and logging macros, the file reader
  and the file iterator, the filler and the type definitions are not part of
  this model. They hold I/O, constants or typedefs only.
- The arena's buffer is not zeroed at creation; the model leaves it as the
  caller passed it.

## Findings

| source | as written | input that shows it | evidently intended | confidence | as-written member | corrected member |
|---|---|---|---|---|---|---|
| include/String_Builder.h:107-111 | for -9..-1 the fast path writes '-' and then the byte '0' + value, which lies between '\'' and '/' | write_int(-5) appends "-+" | '-' followed by the digit of the magnitude, e.g. "-5" | not executed | BuilderSpec.SmallNegativeMisrendered | BuilderSpec.IntendedIntTextCorrect |
| chimp/mem/Arena.h:58-62 | after a successful allocation the offset becomes old offset + size, so the padding before the aligned start is counted again and later regions can overlap earlier ones | size 64 at an aligned base: alloc(10), alloc(20), alloc(5) give [0,10), [16,36), [32,37) | the offset moves to aligned offset + size, so regions never overlap | not executed | Arena.RunOverlaps | Arena.IntendedRunDisjoint |
| chimp/mem/Arena.h:60-62 | the bounds test `aligned_offset + size <= arena->size` is computed in 64 bits, so a huge request wraps it; it then succeeds iff the wrapped sum is at most the size, memsets far past the buffer, and `offset += size` either wraps the offset back below where it was or, when offset + size stays below 2^64, lands it far past the arena's end | size 64 at an aligned base, offset 10: alloc(2^64 - 1), i.e. a length of -1 cast to size_t, passes since 16 + 2^64 - 1 wraps to 15 | refuse every request that does not end within the arena, e.g. by testing `aligned_offset <= arena->size && size <= arena->size - aligned_offset` | not executed | Arena.HugeRequestWraps | Arena.Allocate |
