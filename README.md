# JC_C_Vector in Dafny

A model of `JC_Vector`, the type-erased growable array of `JC_C_Vector.h`.
A vector is a byte buffer that holds `allocated` elements of `type_size`
bytes each, with room for `capacity` of them. Its capacity starts at a floor of
20 elements, doubles when a full vector needs room, and never exceeds a
ceiling of 1000000 bytes.

The model is a class `JcVector.Vector` with fields `capacity` and `count`
and a constant `typeSize`. `count` is the source's `allocated`; that name is
a Dafny keyword. The buffer is an `array<bv8>` field `data`, which `reserve`
and `shrink_to_fit` replace with a fresh array.

- `Valid()` is the representation invariant. It says
  `count <= capacity` and `capacity * typeSize <= 1000000`, and that the
  buffer is large enough.
- `Elements()` is the abstract contents: the first `count * typeSize` bytes,
  cut into `seq<seq<bv8>>` by `Layout.Chunks`.

Every mutator states its new state in terms of `Elements()`: insertion,
removal, appending, truncation, filling and order-preserving filtering.

Other modelling choices:

- A returned `char*` is a byte offset into `data`, wrapped in an `Option`
  whose `None` stands for NULL.
- Whether `malloc`/`realloc` succeeds is an input: an `Allocator` maps a byte
  count to success.
- `memmove`, `memcpy`, `memset` and `malloc`+`memcpy` are methods of module
  `Memory` on the byte array.
- A `JC_Vector**` handle, which destruct and swap take, is a class
  `JcVector.Handle`.

Where the design and the code differ, the model follows the code:
- A failed resize is not all-or-nothing. The grow-until loop
  (JC_C_Vector.h:330-334, 354-358) keeps every doubling that succeeded
  before the one that failed, so the capacity can end larger than it was.
  The elements are unchanged. `JcVector.GrowReached` is that capacity.
- `shrink_to_fit` sets the capacity to the count even when the count is 0
  and the block keeps one element's worth of bytes (JC_C_Vector.h:218-232).

Modules:
- `Wrappers`: the `Option` type.
- `Layout`: the buffer-to-elements reading and the byte-level lemmas about
  each shift.
- `Memory`: the C byte primitives.
- `Sequences`: `RemoveIf`/`Without`, the specification of the bulk erase
  operations.
- `JcVector`: the vector itself.

## Model

| member | source | states |
|---|---|---|
| `JcVector.InitialCapacity` | JC_C_Vector.h:47-50 | the constructed capacity is at least the floor of 20 and at least the requested size, and is one of the two |
| `JcVector.GrowTarget` | JC_C_Vector.h:330-334 | the capacity that repeated doubling reaches is at least `n` and at least the start, and below twice `n` when any doubling happened |
| `JcVector.MaxBytes` | JC_C_Vector.h:175-178 | max_size reports the byte ceiling: for every capacity and every allocatable request above it, reserve succeeds exactly when the request's bytes are at most the result |
| `JcVector.ReserveSucceeds` | JC_C_Vector.h:184-195 | reserve succeeds on any request within the capacity, and a request above it succeeds only when its bytes are within the ceiling and allocatable |
| `JcVector.GrowsTo` | JC_C_Vector.h:330-334 | when every doubling up to `n` succeeds, the first doubling succeeds, and the capacity reached is within the ceiling and was allocatable |
| `JcVector.GrowReached` | JC_C_Vector.h:330-334 | the capacity the grow-until loop leaves: `GrowTarget` when every doubling succeeds, and otherwise at least the start and below `n`, the last doubling that succeeded; any capacity past the start is within the ceiling and was allocatable |
| `JcVector.ShrinkBytes` | JC_C_Vector.h:218-225 | the realloc size shrink_to_fit asks for is the larger of one element's worth and the elements' bytes: it is one of the two and at least both |
| `JcVector.Construct` | JC_C_Vector.h:38-69 | NULL exactly when the header allocation fails or the raised size times the element width exceeds the ceiling; otherwise a fresh, valid, empty vector with the raised capacity and the given width |
| `JcVector.Vector.constructor` | JC_C_Vector.h:57-66 | the fields construct stores: the capacity, the width, a count of 0 and a buffer of capacity times width bytes |
| `JcVector.Destruct` | JC_C_Vector.h:71-80 | a non-NULL handle is NULL afterwards |
| `JcVector.Swap` | JC_C_Vector.h:372-377 | the two handles exchange their vectors |
| `JcVector.Vector.AtPtr` | JC_C_Vector.h:91-97 | an offset exactly when the index is below the count, and the bytes there are that element |
| `JcVector.Vector.AtPtrUnsafe` | JC_C_Vector.h:100-102 | agrees with the checked access below the count; below the capacity it stays inside the buffer and the bytes there are slot `index`, stale or not |
| `JcVector.Vector.SlotAt` | JC_C_Vector.h:100-102 | the `typeSize` bytes at an unchecked index below the capacity, which are the element when the index is below the count |
| `JcVector.Vector.Front` | JC_C_Vector.h:105-111 | NULL exactly when the vector is empty, otherwise the offset of element 0 |
| `JcVector.Vector.Back` | JC_C_Vector.h:114-120 | NULL exactly when the vector is empty, otherwise the offset of the last element |
| `JcVector.Vector.Begin` | JC_C_Vector.h:136-144 | the start of the buffer, the first element's offset when there is one |
| `JcVector.Vector.End` | JC_C_Vector.h:146-154 | one past the last element: equal to begin when empty, otherwise one width past the back, and inside the buffer |
| `JcVector.Vector.Empty` | JC_C_Vector.h:165-168 | true exactly when there are no elements |
| `JcVector.Vector.Size` | JC_C_Vector.h:170-173 | the number of elements |
| `JcVector.Vector.Capacity` | JC_C_Vector.h:208-211 | at least the count, and within the byte ceiling |
| `JcVector.Vector.Reserve` | JC_C_Vector.h:181-205 | succeeds exactly when the request is within capacity, or within the ceiling and allocatable; a request within capacity or a failure changes nothing; a success otherwise sets the capacity to the request; the elements and the old capacity's bytes are kept |
| `JcVector.Vector.Grow` | JC_C_Vector.h:8 | reserve of twice the capacity; from capacity 0 it succeeds and changes nothing |
| `JcVector.Vector.ShrinkToFit` | JC_C_Vector.h:214-234 | succeeds exactly when realloc of one element's worth (count at most 1) or of count times width bytes succeeds; on success capacity equals count, the elements and the common prefix of the old and new blocks are kept, and a failure changes nothing |
| `JcVector.Vector.Clear` | JC_C_Vector.h:246-250 | no elements afterwards, and the unchecked access still reads the old ones |
| `JcVector.Vector.PopBack` | JC_C_Vector.h:312-318 | a no-op when empty; otherwise the last element is dropped and its bytes are still readable past the new count |
| `JcVector.Vector.InsertPtr` | JC_C_Vector.h:253-277 | NULL exactly when the index is past the count or a needed growth fails, and then nothing changes; otherwise the contents become `old[..index] + [value] + old[index..]`, the result is element `index`, the capacity doubles only when the vector was full, and without growth the buffer past the new end is untouched |
| `JcVector.Vector.ShiftIn` | JC_C_Vector.h:266-276 | memmove of the tail one slot right, then memcpy into the gap: `value` is spliced in at `index` and the bytes past the new end are untouched |
| `JcVector.Vector.Erase` | JC_C_Vector.h:280-291 | NULL exactly when the index is not below the count, and then nothing changes; otherwise position `index` is removed in order, and the returned slot holds the old next element or, when the last one was erased, that element's stale bytes |
| `JcVector.Vector.ShiftOut` | JC_C_Vector.h:285-290 | the memmove of the tail one slot left; its effect on the contents and on the erased slot |
| `JcVector.Vector.PushBackPtr` | JC_C_Vector.h:294-309 | fails exactly when the vector is full and growth fails, and then nothing changes; otherwise the contents become `old + [value]` and the capacity doubles only when the vector was full |
| `JcVector.Vector.GrowTo` | JC_C_Vector.h:330-334 | the grow-until loop: succeeds exactly when every doubling on the way succeeds, and then reaches `GrowTarget`; the capacity left is `GrowReached`, so a failure keeps the doublings that succeeded; the elements and the old capacity's bytes are kept whether it succeeds or not |
| `JcVector.Vector.Truncate` | JC_C_Vector.h:324-328 | the contents become the first `n` elements, and the dropped ones stay readable in the buffer |
| `JcVector.Vector.ZeroFillTo` | JC_C_Vector.h:336-340 | memset of the new slots' worth of zero bytes at a byte offset: every other byte of the buffer is as it was, and so is every other byte below `kept` of a buffer it was copied from; when the offset is the first new slot, zero elements are appended |
| `JcVector.Vector.Resize` | JC_C_Vector.h:321-342 | truncates, or grows and then zeroes `(n - count) * typeSize` bytes from byte offset `count`; every other byte below the old capacity's bytes is as it was; a failed growth leaves the capacity `GrowReached` and the elements as they were; the elements are `old + zeros` when the count was 0 or the width is at most 1 |
| `JcVector.Vector.ResizeCorrected` | JC_C_Vector.h:321-342 | resize with the memset at the first new slot: growing appends `n - count` zero elements to the old ones, and a failed growth leaves the capacity `GrowReached` and the elements as they were |
| `JcVector.Vector.FillTo` | JC_C_Vector.h:360-367 | the fill loop: every new slot up to `n` holds the default value and the old elements are kept |
| `JcVector.Vector.ResizePtr` | JC_C_Vector.h:345-369 | truncates to `n`, or grows and appends `n - count` copies of the value; a failed growth leaves the capacity `GrowReached` and the contents as they were |
| `JcVector.Vector.SameAt` | JC_C_Vector.h:411 | the memcmp test: true exactly when element `i` equals the value |
| `JcVector.Vector.ScanStep` | JC_C_Vector.h:411-416 | one iteration of the erase-and-`i--` scan: the examined part grows by one element, and the kept elements stay in order |
| `JcVector.Vector.EraseIfSame` | JC_C_Vector.h:405-420 | the contents become the old ones without every element equal to the value, in order, and the result is the number removed, which is that value's number of occurrences |
| `JcVector.Vector.EraseIfPredicate` | JC_C_Vector.h:423-436 | the contents become the old ones without every element satisfying the predicate, in order |
| `JcVector.AreSameShallow` | JC_C_Vector.h:388-402 | true exactly when the counts and widths match and the element sequences are equal |
| `Memory.Move` | JC_C_Vector.h:287 | memmove: the source range's old bytes land at the destination, with overlap allowed, and nothing else changes |
| `Memory.Copy` | JC_C_Vector.h:305 | memcpy of one element's bytes to an offset, with nothing else changed |
| `Memory.Splice` | JC_C_Vector.h:269-272 | insert's memmove and memcpy combined: `v` spliced in at the position, the following `len` bytes shifted after it |
| `Memory.Zero` | JC_C_Vector.h:338 | memset of zero bytes at an offset, with nothing else changed |
| `Memory.Reallocate` | JC_C_Vector.h:191-200 | a fresh block of the requested size whose first `kept` bytes are the old ones |
| `Layout.FlattenChunks` | JC_C_Vector.h:17-27 | reading the elements and writing them back out gives the first `count * typeSize` bytes of the buffer |
| `Layout.ChunksFlatten` | JC_C_Vector.h:17-27 | elements of one width, written out and read back, are the same elements |
| `Layout.ChunksEqualIff` | JC_C_Vector.h:397 | two buffers hold the same `n` elements exactly when their first `n * t` bytes agree, which is what the memcmp compares |
| `Layout.ChunksInsert` | JC_C_Vector.h:266-274 | opening a gap at element `k` and writing `v` there inserts `v` at position `k` |
| `Layout.ChunksErase` | JC_C_Vector.h:285-289 | closing the gap over element `k` removes position `k` |
| `Layout.InsertLayout` | JC_C_Vector.h:266-274 | after insert's shift and copy, the buffer holds the old elements with `v` at `k`, and the bytes past the new end are untouched |
| `Layout.EraseLayout` | JC_C_Vector.h:285-289 | after erase's shift, the buffer holds the old elements without `k`, and the bytes from the old last slot on are untouched |
| `Layout.EraseSlot` | JC_C_Vector.h:285-290 | after erase's shift, the erased slot holds the old next element, or its own old bytes when it was the last |
| `Layout.PushLayout` | JC_C_Vector.h:305-306 | after push_back's copy, the buffer holds the old elements followed by `v` |
| `Layout.ChunksTake` | JC_C_Vector.h:317 | reading fewer elements gives a prefix of the elements |
| `Layout.ChunksSamePrefix` | JC_C_Vector.h:197 | buffers that agree on enough leading bytes hold the same elements, which is why reserve's copy keeps them |
| `Layout.ChunksRepeat` | JC_C_Vector.h:362-365 | `m` copies of a value's bytes read back as `m` copies of the value |
| `Layout.FilledElements` | JC_C_Vector.h:362-367 | a buffer holding the old elements' bytes followed by `m` copies of the value holds the old elements followed by `m` copies |
| `Layout.FillStep` | JC_C_Vector.h:364 | one memcpy of the fill loop extends the filled prefix by one copy of the value |
| `Layout.RepeatZeros` | JC_C_Vector.h:338 | zeroing `m` elements' bytes writes `m` zero elements |
| `Layout.ZeroSlots` | JC_C_Vector.h:338 | after the memset, the buffer equals the old one except for the zeroed range, and agrees below `kept` with any buffer whose prefix it copied |
| `Layout.ZeroFill` | JC_C_Vector.h:336-338 | zero-filling from the first new slot's byte offset appends zero elements and keeps the old ones |
| `Layout.ZeroFillAtCountCorrupts` | JC_C_Vector.h:338 | zero-filling from byte offset `count` instead, with at least one element of width at least 2 whose byte `count` is not zero, changes the old elements |
| `Layout.ChunksWidthZero` | JC_C_Vector.h:21 | elements of width 0 are all empty |
| `Sequences.RemoveIfMembers` | JC_C_Vector.h:427-434 | an element remains after the predicate erase exactly when it was present and fails the predicate |
| `Sequences.RemoveIfMultiset` | JC_C_Vector.h:427-434 | each value occurs as often as before when it fails the predicate, and not at all when it satisfies it |
| `Sequences.RemoveIfNone` | JC_C_Vector.h:427-434 | when no element satisfies the predicate, nothing is erased |
| `Sequences.WithoutCount` | JC_C_Vector.h:409-419 | the number of elements erase_if_same removes is the value's number of occurrences |
| `Sequences.RemoveIfAppend` | JC_C_Vector.h:427-434 | filtering distributes over concatenation |
| `Sequences.RemoveIfFront` | JC_C_Vector.h:427-434 | filtering seen from the front: the first element is kept exactly when it fails the predicate |
| `Sequences.KeepStep` | JC_C_Vector.h:429-433 | one step of the scan: the kept prefix grows by the examined element exactly when it fails the predicate |

## Left out

- Fixed-width arithmetic is not modelled. The `size_t` fields and products
  are unbounded naturals, so products such as `size * type_size` do not
  wrap. The scans' `i--` at `i == 0` (JC_C_Vector.h:415, 433) wraps to the
  maximum and is then incremented back to 0; the model's loop keeps its
  index at the next slot to examine instead.
- `JcVector.Vector.EraseIfSame` returns a natural, not the source's `int`
  `num_erased`, so an overflow after 2^31 erasures is not modelled.
- The real `malloc`/`realloc`/`free` are replaced by the `Allocator`
  success oracle, and pointers are byte offsets. So pointer identity, `free`
  and leaks are not modelled. That includes the header that construct leaks
  when it refuses the size (JC_C_Vector.h:40, 52-55).
- `JcVector.Construct` always gets a storage buffer. The source does not
  check that `malloc` (JC_C_Vector.h:65), and for width 0 it may return
  NULL or a unique pointer; the model does not distinguish them.
- Bytes of a freshly allocated block beyond what is copied into it are
  indeterminate in C. The contracts promise nothing about them.
- Growing from capacity 0 is not modelled. After `shrink_to_fit` on an
  empty vector the capacity is 0, because JC_C_Vector.h:232 sets it to the
  count, while the block keeps one element's worth of bytes
  (JC_C_Vector.h:220). The growth macro then reserves 0 elements and
  succeeds without adding room. The first push or insert still lands inside
  that block, but it leaves `allocated` at 1 and `capacity` at 0. From then
  on `allocated == capacity` never holds again, so nothing ever grows and
  every later push or insert writes past the block. Resize's `while` never
  ends. The model's invariant `count <= capacity` excludes that state.
  `JcVector.Vector.Grow` itself models the capacity-0 case; the members
  below require `capacity > 0` where they would grow.
- `JcVector.Vector.InsertPtr` requires `capacity > 0`, for the reason above.
- `JcVector.Vector.PushBackPtr` requires `capacity > 0`, for the reason above.
- `JcVector.Vector.GrowTo` requires `capacity > 0`, for the reason above.
- `JcVector.Vector.Resize` requires `capacity > 0` when it grows, for the
  reason above.
- `JcVector.Vector.ResizeCorrected` requires `capacity > 0` when it grows,
  for the reason above.
- `JcVector.Vector.ResizePtr` requires `capacity > 0` when it grows, for the
  reason above.
- `JcVector.Vector.EraseIfPredicate` has no result. The C function is
  declared `int` but has no `return` statement, so its value is undefined.
- The predicate's foreign behaviour (side effects, reading beyond the
  element) is not modelled. It is a Dafny function on the element's bytes.
- `JC_vector_data` and `JC_vector_cbegin` are the same expression as
  `JC_vector_begin`, and `JC_vector_cend` the same as `JC_vector_end`. They
  are covered by `JcVector.Vector.Begin` and `JcVector.Vector.End`.
- The debug dumps `JC_vector_safe_dump` and `JC_vector_unsafe_dump` are not
  modelled; they are `printf` output. The demo driver `main.c` is not part
  of this model.
- `testing.c` is the test driver. It is used only as a description of the
  expected outcomes.

## Findings

| source | as written | input that shows it | evidently intended | confidence | as-written member | corrected member |
|---|---|---|---|---|---|---|
| JC_C_Vector.h:338 | resize's memset starts at `vector->data + vector->allocated`, a byte offset equal to the element count | a vector with 2-byte elements holding one element whose second byte is not zero, resized to 2: the memset zeroes bytes 1 and 2, so it changes the kept element and leaves byte 3 of the new element as it was | zero the new slots from byte offset `allocated * type_size`, so the old elements are kept and each new one reads as zero | not executed | `Layout.ZeroFillAtCountCorrupts` | `JcVector.Vector.ResizeCorrected` |

`JcVector.Vector.Resize` models the code as written. Its contract says
where the zeros land, and it promises the "old elements plus zero elements"
outcome only when the count is 0 or the width is at most 1.
`Layout.ZeroFillAtCountCorrupts` proves that in every other case with a
nonzero byte at offset `count` the old elements do not survive.
`JcVector.Vector.ResizeCorrected` zeroes from `count * typeSize` and proves
the intended outcome for every input.
