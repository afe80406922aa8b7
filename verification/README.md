# armory core in Dafny

A model of three small C components of the `armory` repository, with proofs of
the properties their code promises:

- **The stack arena** of `src/alloc.c`. `Stack_Init` binds a caller-owned
  buffer. `Stack_AllocAlign` reserves `padding + size` bytes, where the padding
  comes from `calc_padding_with_header`: the least padding that aligns the address
  and leaves room for a 16-byte `StackHeader`. The header goes in the last 16 bytes
  of the block and records the previous offset. `Stack_Pop` reads the header just
  below the offset, rewinds to the recorded offset and zeroes what it frees.
  The code differs from the usual layout of such arenas in two ways, and the
  model follows the code:
  - the returned address is the OLD top of the arena, not the aligned address
    after the padding, so it need not be aligned (`AllocProps.ReturnedAddressNotAligned`);
  - a request that would end exactly at the capacity is refused, because the
    comparison is `>=` (`AllocProps.ExactFitRejected`).
- **The growable `String` and `VecString` of `src/csv.c`**, and `String_Split`.
  The splitter starts a new piece only after the current piece holds a
  character. So leading and repeated delimiters produce nothing, and a
  delimiter right after text leaves one empty piece open at the end.
- **From `include/types.h`**: the other `String` type (`begin`, `size`,
  `capacity`), its appends (`String_Append`, `String_AppendStr`,
  `String_AppendMany`), the doubling loop of `String_CheckCapacity`, and
  `Mat4_Transpose`.

Modelling choices:

- **Addresses.** Addresses are naturals. The arena's buffer sits at address
  `base`, and the arena keeps `base + capacity` below 2^64. `is_power_of_two` is
  computed on a 64-bit word: `x - 1` wraps at 0, and a bitwise AND is defined on
  naturals.
- **Arena headers.** The arena's headers are kept as a table from the offset
  where each header starts to its two fields. They are not stored as bytes of the
  buffer. A pop drops every header lying in the bytes it zeroes.
- **LIFO order.** LIFO use is the predicate `Alloc.Chained`: following the
  `prev_offset` links down from the offset reaches 0. `Alloc.FrameStarts` reads
  off the stack of live frames from the same links.
- **csv memory.** Memory of the csv `String` is a sequence of cells. A cell that
  `realloc` added and nothing wrote is `Unset`. The csv functions are modelled
  with allocation that always succeeds.
- **types.h allocator.** The `types.h` functions take the allocator as a
  parameter `limit`: `realloc` grants any block of at most `limit` bytes and
  refuses larger ones. A refusal makes `begin` null and returns `FAILURE`, as the
  code does.
- **Matrix elements.** `Mat4_Transpose` only moves fields, so the matrix is
  generic in its element type.

## Model

| member | source | states |
|---|---|---|
| Bits.IsPowerOfTwoIffOneBit | src/alloc.c:10 | `is_power_of_two(x)`, with `x - 1` wrapping on a 64-bit word, holds exactly when `x` has at most one bit set; in particular it holds of 0 |
| Bits.AlignmentIsNonZeroPowerOfTwo | src/alloc.c:40 | the alignments the arena accepts are exactly the non-zero words that pass `is_power_of_two` |
| Bits.AlignmentMask | src/alloc.c:16 | for such an alignment `a`, `ptr & (a - 1)` is `ptr % a` |
| Alloc.GapIsMaskComplement | src/alloc.c:16-20 | the padding before the header test is the natural gap `(a - ptr % a) % a`, which is below `a` and aligns `ptr` |
| Alloc.BlockExtension | src/alloc.c:24-28 | the extension added when the gap is too small is a multiple of the alignment covering the missing bytes, and less than one alignment more than them |
| Alloc.CalcPadding | src/alloc.c:12-31 | the padding aligns `ptr + padding`, is at least the header size and less than header size plus alignment; when the natural gap already holds the header it is returned unchanged |
| Alloc.PaddingIsLeast | src/alloc.c:12-31 | no padding at least as large as the header but smaller than the computed one aligns the address |
| Alloc.Init | src/alloc.c:33-37 | a fresh arena is valid, empty, has no frames, and binds the given buffer and capacity |
| Alloc.ClampAlignment | src/alloc.c:41-43 | the alignment used is still a power of two, at most 128, and equal to the request when the request is at most 128 |
| Alloc.NextPadding | src/alloc.c:44-47 | the padding for the next block aligns the current address to the clamped alignment and is between 16 and 16 plus that alignment |
| Alloc.PlaceBlock | src/alloc.c:48-57 | refused exactly when `offset + size + padding >= capacity`, leaving the arena unchanged; otherwise it returns the old top, advances the offset by `padding + size`, zeroes exactly the returned bytes, and records one header with the old offset in the 16 bytes ending at the new offset, above the returned bytes |
| Alloc.AllocAlign | src/alloc.c:39-58 | refused exactly when the block with its padding does not fit strictly below the capacity, leaving the arena unchanged; on success it returns the old top and the offset grows by exactly padding plus size |
| Alloc.Pop | src/alloc.c:60-70 | at offset 0 nothing changes; otherwise the offset becomes the header's `prev_offset`, the freed bytes are zero, the headers in them are gone and every other byte is kept |
| AllocProps.AllocPushes | src/alloc.c:52-56 | under LIFO use a successful allocation pushes the old offset on the stack of frames and a failed one leaves the stack as it was |
| AllocProps.PopPops | src/alloc.c:60-70 | under LIFO use a pop is defined, keeps the discipline, and removes exactly the top frame, returning to the offset that frame started at |
| AllocProps.AllocThenPop | src/alloc.c:52-69 | an allocation followed by a pop gives back the arena as it was, except that the bytes of the freed block are zero |
| AllocProps.ClampedAlignment | src/alloc.c:41-43 | any alignment above 128 gives exactly the result of alignment 128 |
| AllocProps.AllocMany | src/alloc.c:39-58 | a run of allocations keeps the arena valid, never lowers the offset, and touches no byte outside the bytes it added |
| AllocProps.AllocManyPushes | src/alloc.c:52-56 | a run of allocations only pushes frames, at most one per request, and keeps the LIFO chain |
| AllocProps.PopMany | src/alloc.c:60-70 | repeated pops keep the arena valid and chained and never raise the offset |
| AllocProps.PopManyFrames | src/alloc.c:60-70 | `n` pops remove exactly the `n` most recent frames, or all of them when there are fewer |
| AllocProps.PopManyZeroes | src/alloc.c:66-69 | `n` pops zero every byte between the offset they reach and the one they started from, and keep every other byte |
| AllocProps.AllocsThenPops | src/alloc.c:39-70 | `N` allocations on an empty arena followed by `N` pops give back the empty arena, with the bytes the allocations used set to zero |
| AllocProps.ExactFitRejected | src/alloc.c:48 | on a 32-byte arena a 16-byte request at alignment 1, which would end exactly at the capacity, is refused, and a 15-byte one succeeds |
| AllocProps.ReturnedAddressNotAligned | src/alloc.c:45-57 | on an 8-aligned buffer the second one-byte allocation at alignment 8 returns the address 17 bytes in, which is not 8-aligned |
| CsvString.Resize | src/csv.c:5-16 | no change when the capacity already suffices; otherwise the capacity is the request, the text is kept, `new - old` cells from `size` on are zero, the old cells beyond them are kept, and the cells beyond both are unset |
| CsvString.ResizeLeavesTailUnset | src/csv.c:12 | doubling a string that is not full leaves its last cell unset, because the zeroed range starts at `size` rather than at the old capacity |
| CsvString.Reserve | src/csv.c:26-30 | the doubling loop keeps the text and ends with the first doubled capacity that exceeds `size + len` |
| CsvString.Write | src/csv.c:31-32 | the `memcpy` extends the text by exactly the copied characters within the capacity |
| CsvString.Append | src/csv.c:18-34 | the text becomes the old text followed by `other`, the size grows by its length, the capacity stays strictly above the size, and the capacity is 64 for an unallocated string or the old one, doubled until it exceeds the new size |
| CsvString.AppendCapacityLeast | src/csv.c:20-30 | the appended string's capacity is the start capacity times the least power of two that exceeds the new size |
| CsvString.ResetThenAppend | src/csv.c:18-34 | after a reset, appending fewer characters than the capacity gives exactly those characters, in the same capacity |
| CsvString.Reset | src/csv.c:91-98 | the text is empty, the capacity kept, and every cell zero; an unallocated string is left alone |
| CsvString.IsEmpty | src/csv.c:100-102 | true exactly when the text is empty |
| CsvString.Free | src/csv.c:104-113 | the string becomes unallocated, with no text and capacity 0 |
| CsvVec.Alloc | src/csv.c:115-142 | exactly one empty string is added after the live ones, which are unchanged; a free slot remains; an unallocated array starts with 64 slots, the capacity is kept while there is room and doubles when the array is full |
| CsvVec.Reset | src/csv.c:144-153 | no string stays live, every previously live string is reset, the other slots and the capacity are kept |
| CsvVec.IsEmpty | src/csv.c:155-157 | true exactly when no string is live |
| CsvVec.Free | src/csv.c:159-171 | the array becomes unallocated, with no live strings and capacity 0 |
| CsvSplit.SplitStep | src/csv.c:71-86 | one round of the loop applies the step on piece texts: a delimiter opens a new piece only after a non-empty one, and another character goes to the current piece, opening the first if needed |
| CsvSplit.Split | src/csv.c:67-89 | the earlier strings of `pieces` are untouched and the texts added are exactly the pieces of the input text, so an empty input adds nothing |
| CsvSplit.PiecesShape | src/csv.c:72-84 | pieces exist exactly when the text has a non-delimiter, none holds the delimiter, all but the last are non-empty, and the last is empty exactly when the text ends with the delimiter |
| CsvSplit.PiecesConcat | src/csv.c:79-86 | the pieces put together give the text with every delimiter removed |
| CsvSplit.PiecesJoin | src/csv.c:72-86 | the pieces joined with the delimiter give the text without leading delimiters and with each run of delimiters cut to one |
| CsvSplit.PiecesUnique | src/csv.c:70-86 | the pieces are the only delimiter-free list with that join that is empty exactly when the text holds no non-delimiter |
| CsvSplit.SplitExample | src/csv.c:72-78 | `,a,,b,` splits into `a`, `b` and one empty piece |
| Growth.GrowToIsPowerMultiple | include/types.h:193-200 | the capacity the doubling loop reaches is the start capacity times a power of two |
| Growth.GrowToLeast | include/types.h:193-200 | and it is no larger than any such multiple that is large enough |
| Growth.GrowToTwice | include/types.h:193-200 | running the doubling loop for one need and then for another ends where one run for the larger need ends |
| Growth.GrowToMonotone | include/types.h:193-200 | a larger need never ends at a smaller capacity |
| TypesString.NeededIsLeast | include/types.h:193-201 | the capacity after growing is unchanged when it suffices and otherwise the old capacity times the least power of two that makes room |
| TypesString.CheckCapacity | include/types.h:192-203 | succeeds exactly when the string already has room or the allocator grants every doubling up to the first capacity with room (`DoublingsWithin`); a string with room is left as it is; on success the text is kept and the capacity is the least doubling with `capacity >= size + len`; on failure `begin` is null, the size is kept and the capacity is not lowered |
| TypesString.Append | include/types.h:108-115 | succeeds exactly when the capacity check does; then the text is the old text followed by the `len` input characters; appending nothing leaves the string as it was, `begin` included |
| TypesString.Strlen | include/types.h:118 | the length is the index of the first NUL |
| TypesString.AppendStr | include/types.h:117-125 | succeeds exactly when the capacity check for the string's length does; then the text is the old text followed by the characters before the first NUL; an empty C string leaves the string as it was |
| TypesString.AppendArgument | include/types.h:131-134 | one round of the loop succeeds exactly when the allocator grants the next argument after the ones already appended, which is exactly when it grants all of them up to this one at once; on success the state holds for one more argument; on failure `begin` is null, the size is unchanged and the total of all arguments is refused too |
| TypesString.ArgumentStep | include/types.h:131-134 | growing by the arguments so far and then by the next one gives the same capacity, and is granted in the same cases, as growing by all of them at once |
| TypesString.NeededInSteps | include/types.h:192-203 | two capacity checks in a row, for `a` and then `b` more bytes, end at the capacity one check for `a + b` reaches |
| TypesString.DoublingsInSteps | include/types.h:192-203 | after a granted check for `a` bytes, the check for `b` more is granted exactly when one check for `a + b` would be |
| TypesString.DoublingsMonotone | include/types.h:192-203 | a check the allocator grants for a longer text it also grants for a shorter one |
| TypesString.AppendMany | include/types.h:127-137 | succeeds exactly when all arguments were appended, which is exactly when the allocator grants the capacity for all of them together; then the text is the old text followed by every argument; on failure `appended` is the first argument refused: the ones before it were granted, their characters are counted in the size, and `begin` is null |
| Matrix.Transpose | include/types.h:379-410 | row `r`, column `c` of the result is row `c`, column `r` of the input |
| Matrix.TransposeInvolution | include/types.h:379-410 | transposing twice gives back the matrix |
| Matrix.TransposeFixesDiagonal | include/types.h:379-410 | the diagonal entries stay in place |
| Matrix.TransposeUnique | include/types.h:379-410 | the transpose is the only matrix with the swapped entries |
| Matrix.TransposeExample | include/tests.h:23-39 | the matrix of the transpose test transposes to the expected matrix |

## Left out

- **File reading.** `String_ReadFile` (src/csv.c:36-65) reads a file with
  `open`/`lseek`/`read`/`close`. That is I/O.
- **Diagnostics.** All `fprintf`/`perror` diagnostics are output only.
- **Float code in include/types.h.** Float arithmetic and comparison are left out:
  the `Vec3_*`, `Vec4_*` and `Mat3_*` functions, `Mat4_IsEqual` and `F32_Abs`.
  Float formatting is left out too: `String_AppendVec3`, `String_AppendVec4` and
  `String_AppendMat4`. All of these depend on the float representation and on
  `snprintf`.
- **Other code.** The build driver nob.c, the float-equality tests and the
  commented-out C++ at the end of src/csv.c are not part of this model.
- **The `StackAlloc` macro.** It names a function that does not exist
  (include/alloc.h:10-11). `Stack_AllocAlign` is modelled directly.
- **Out-of-order pops.** These read whatever bytes lie below the offset. LIFO use
  is a precondition (`Alloc.Chained`) of the lemmas about pops, and `Alloc.Pop`
  requires a header below a non-zero offset.
- **Concurrent use of the arena.**
- **`size_t` overflow.** Integers are unbounded, so no `size_t` sum or product
  wraps in the model: not `offset + size + padding` (src/alloc.c:48), not
  `size + other_size` and `capacity * 2` in `String_Append` (src/csv.c:26-27), and
  not `capacity *= 2` and `capacity * sizeof(String)` in `VecString_Alloc`
  (src/csv.c:128-130). None of these can overflow for sizes that fit in memory.
  Only the addresses inside the arena's buffer are kept below 2^64.
- **Alignment 0.** It passes `is_power_of_two`. The mask `alignment - 1` is then
  all ones, so `calc_padding_with_header` gives padding `2^64 - address` and the
  `size_t` sum at src/alloc.c:48 wraps; the call normally returns NULL. It divides
  by zero (src/alloc.c:25) only at address 0 or within 16 bytes below 2^64. The
  arena functions require a non-zero power of two.
- **Header bytes.** The `StackHeader` bytes are not kept in the buffer. The
  model keeps them as a table instead, so a caller writing over a live header
  through the returned pointer is not modelled. The code writes the 16 header
  bytes over `[next - 16, next)` (src/alloc.c:53-55); the model's buffer keeps
  the old bytes there. So "every other byte is kept" (`Alloc.PlaceBlock`,
  `AllocProps.AllocMany`) is about the model's buffer, in which the header
  bytes are not stored.
- **Allocation failure in src/csv.c.** `realloc`/`calloc` failure and the
  `EXIT_ERR` and `NULL` returns it causes are left out; the model's allocation
  always succeeds.
- **New `VecString` slots.** The slots `realloc` adds to a `VecString` are
  modelled as empty strings. No code reads a slot before `VecString_Alloc`
  writes it.
- **The old block after a failed `realloc`.** In include/types.h the old block
  is leaked. The model does not track it.
- TypesString.CheckCapacity: requires `capacity > 0` unless nothing is to be
  added, and requires that every doubling up to the first capacity with room
  fits the `int` at include/types.h:194 (`CanGrow`). Otherwise, from capacity 0,
  every round asks `realloc` for 0 bytes (`0 * 2 == 0`): under the model's
  allocator, which grants such a request, the loop would never end, while what
  a real `realloc` does with size 0 is left to the C library (with glibc the
  second `realloc(p, 0)` returns NULL and the call fails). And a doubling past
  the `int` truncates the new capacity. This is required even
  when the allocator would refuse an earlier doubling and the loop would stop
  before reaching the large one.
- TypesString.AppendMany: requires the growth condition above for the total of
  all arguments. This is stronger than the per-call condition the loop needs,
  and it rules out the cases where the source would truncate or ask for 0 bytes.
- TypesString.AppendStr: requires `strlen` to fit the `int` it is stored in.
- **Unused bytes of the include/types.h block.** A string keeps only the
  `size` characters written so far, not the rest of its block.
