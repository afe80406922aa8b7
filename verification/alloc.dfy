/** The LIFO ("stack") arena of `src/alloc.c`.

    The arena is a view of a caller-owned byte buffer: `base` stands for the
    buffer's address, `offset` is the first free byte and `capacity` the
    number of usable bytes. Every allocation places a 16-byte `StackHeader`
    at the END of its block (the code's layout), so that `Pop` finds the
    header of the most recent block in the 16 bytes just below `offset`.
    The headers are kept as objects indexed by the offset of their first
    byte rather than as raw bytes of the buffer; a header lives while none
    of its 16 bytes has been overwritten. */
module Alloc {
  import opened Bits
  import opened Bytes
  import opened Wrappers

  /** `sizeof(StackHeader)`: two `size_t` fields. */
  const HEADER_SIZE: nat := 16

  /** Alignments above this are silently clamped to it. */
  const MAX_ALIGNMENT: nat := 128

  /** Least padding that makes `(ptr + padding) % alignment == 0`, before the
      header is taken into account. */
  function NaturalGap(ptr: nat, alignment: nat): nat
    requires alignment >= 1
  {
    (alignment - ptr % alignment) % alignment
  }

  lemma GapAligns(ptr: nat, a: nat)
    requires a >= 1
    ensures NaturalGap(ptr, a) == if ptr % a != 0 then a - ptr % a else 0
    ensures NaturalGap(ptr, a) < a
    ensures (ptr + NaturalGap(ptr, a)) % a == 0
  {
    var q, m := ptr / a, ptr % a;
    DivModUnique(ptr, a, q, m);
    if m != 0 {
      assert (a - m) % a == a - m by { DivModUnique(a - m, a, 0, a - m); }
      assert ptr + (a - m) == a * (q + 1);
      DivModUnique(ptr + (a - m), a, q + 1, 0);
    } else {
      assert (a - m) % a == 0 by { DivModUnique(a, a, 1, 0); }
    }
  }

  /** Whole `alignment`-sized blocks that cover `needed` bytes, as lines
      24-28 of `calc_padding_with_header` compute them. */
  function BlockExtension(needed: nat, alignment: nat): (e: nat)
    requires IsAlignment(alignment)
    ensures needed <= e < needed + alignment
    ensures e % alignment == 0
  {
    AlignmentMask(needed, alignment);
    BlockBounds(needed, alignment);
    if And(needed, alignment - 1) != 0 then alignment * (1 + needed / alignment)
    else alignment * (needed / alignment)
  }

  lemma BlockBounds(needed: nat, a: nat)
    requires a >= 1
    ensures var q := needed / a;
      && (needed % a != 0 ==> needed < a * (1 + q) < needed + a && (a * (1 + q)) % a == 0)
      && (needed % a == 0 ==> a * q == needed && (a * q) % a == 0)
  {
    var q := needed / a;
    assert needed == a * q + needed % a;
    DivModUnique(a * q, a, q, 0);
    DivModUnique(a * (1 + q), a, 1 + q, 0);
  }

  lemma SumAligned(x: nat, e: nat, a: nat)
    requires a >= 1 && x % a == 0 && e % a == 0
    ensures (x + e) % a == 0
  {
    var s, t := x / a, e / a;
    assert x == a * s + x % a;
    assert e == a * t + e % a;
    DivModUnique(x + e, a, s + t, 0);
  }

  /** Models `calc_padding_with_header`: the least padding that aligns `ptr`
      and leaves at least `headerSize` bytes. */
  function CalcPadding(ptr: nat, alignment: nat, headerSize: nat): (p: nat)
    requires ptr < WORD && IsAlignment(alignment)
    requires headerSize + alignment <= WORD
    ensures (ptr + p) % alignment == 0
    ensures headerSize <= p < headerSize + alignment
    ensures NaturalGap(ptr, alignment) >= headerSize ==> p == NaturalGap(ptr, alignment)
  {
    var modulo := And(ptr, alignment - 1);
    var padding := if modulo != 0 then alignment - modulo else 0;
    GapIsMaskComplement(ptr, alignment);
    if padding < headerSize then
      var extension := BlockExtension(headerSize - padding, alignment);
      SumAligned(ptr + padding, extension, alignment);
      padding + extension
    else
      padding
  }

  lemma GapIsMaskComplement(ptr: nat, a: nat)
    requires IsAlignment(a)
    ensures var m := And(ptr, a - 1);
      (if m != 0 then a - m else 0) == NaturalGap(ptr, a)
    ensures (ptr + NaturalGap(ptr, a)) % a == 0 && NaturalGap(ptr, a) < a
  {
    AlignmentMask(ptr, a);
    GapAligns(ptr, a);
  }

  /** No padding smaller than the one computed is both aligned and large
      enough for the header. */
  lemma PaddingIsLeast(ptr: nat, alignment: nat, headerSize: nat)
    requires ptr < WORD && IsAlignment(alignment)
    requires headerSize + alignment <= WORD
    ensures forall q :: headerSize <= q < CalcPadding(ptr, alignment, headerSize) ==> !AlignsAfter(ptr, q, alignment)
  {
    var p := CalcPadding(ptr, alignment, headerSize);
    forall q | headerSize <= q < p
      ensures !AlignsAfter(ptr, q, alignment)
    {
      AlignedThenMisaligned(ptr + q, p - q, alignment);
    }
  }

  /** `ptr + padding` is a multiple of `alignment`. */
  predicate AlignsAfter(ptr: nat, padding: nat, alignment: nat)
    requires alignment >= 1
  {
    (ptr + padding) % alignment == 0
  }

  lemma AlignedThenMisaligned(x: nat, d: nat, a: nat)
    requires a >= 1 && 0 < d < a
    ensures x % a == 0 ==> (x + d) % a == d
  {
    var t := x / a;
    assert x == a * t + x % a;
    if x % a == 0 {
      DivModUnique(x + d, a, t, d);
    }
  }

  /** `StackHeader`: the offset before the allocation and the padding
      beyond the header's own size. */
  datatype StackHeader = StackHeader(prevOffset: nat, padding: nat)

  /** `Stack`: the buffer (with `base` standing for its address), the
      headers stored in it, the first free offset and the capacity. */
  datatype Stack = Stack(buffer: seq<byte>, headers: map<nat, StackHeader>, base: nat, offset: nat, capacity: nat)

  /** The arena's invariant: the cursor lies within the capacity, the buffer
      provides the capacity, every address in it fits a `uintptr_t`, and every
      header lies below the cursor and names an offset below itself. */
  predicate Valid(a: Stack)
  {
    && a.offset <= a.capacity <= |a.buffer|
    && a.base + a.capacity < WORD
    && (forall at :: at in a.headers ==> at + HEADER_SIZE <= a.offset && a.headers[at].prevOffset <= at)
  }

  /** Models `Stack_Init`: binds the buffer, the arena is empty. */
  function Init(buf: seq<byte>, base: nat, capacity: nat): (a: Stack)
    requires capacity <= |buf| && base + capacity < WORD
    ensures Valid(a) && a.offset == 0 && Chained(a.headers, a.offset)
    ensures a.buffer == buf && a.base == base && a.capacity == capacity
  {
    Stack(buf, map[], base, 0, capacity)
  }

  /** The alignment `Stack_AllocAlign` actually uses. */
  function ClampAlignment(alignment: nat): (r: nat)
    requires IsAlignment(alignment)
    ensures IsAlignment(r) && r <= MAX_ALIGNMENT
    ensures alignment <= MAX_ALIGNMENT ==> r == alignment
    ensures alignment > MAX_ALIGNMENT ==> r == MAX_ALIGNMENT
  {
    assert BitCount(MAX_ALIGNMENT) == 1;
    if alignment > MAX_ALIGNMENT then MAX_ALIGNMENT else alignment
  }

  /** Padding used for the next allocation of the arena. */
  function NextPadding(a: Stack, alignment: nat): (p: nat)
    requires Valid(a) && IsAlignment(alignment)
    ensures (a.base + a.offset + p) % ClampAlignment(alignment) == 0
    ensures HEADER_SIZE <= p < HEADER_SIZE + ClampAlignment(alignment)
  {
    CalcPadding(a.base + a.offset, ClampAlignment(alignment), HEADER_SIZE)
  }

  /** Result of `Stack_AllocAlign`: the arena afterwards and the returned
      address (`None` for `NULL`). */
  datatype Allocation = Allocation(arena: Stack, ptr: Option<nat>)

  /** The part of `Stack_AllocAlign` after the padding is known: refuse the
      request when it does not fit strictly below the capacity, otherwise
      write the header at the end of the block, zero the returned bytes and
      advance the offset past the block. */
  function PlaceBlock(a: Stack, size: nat, padding: nat): (r: Allocation)
    requires Valid(a) && HEADER_SIZE <= padding
    ensures Valid(r.arena)
    ensures r.arena.base == a.base && r.arena.capacity == a.capacity
    ensures |r.arena.buffer| == |a.buffer|
    ensures r.ptr.None? <==> a.offset + size + padding >= a.capacity
    ensures r.ptr.None? ==> r.arena == a
    ensures r.ptr.Some? ==>
      var next := r.arena.offset;
      && r.ptr.value == a.base + a.offset
      && next == a.offset + padding + size
      && next < a.capacity
      // the returned bytes are zero ...
      && (forall i :: a.offset <= i < a.offset + size ==> r.arena.buffer[i] == 0)
      // ... every other byte is kept ...
      && (forall i :: 0 <= i < |a.buffer| && !(a.offset <= i < a.offset + size) ==>
            r.arena.buffer[i] == a.buffer[i])
      // ... and the one new header ends at the new offset, beyond them
      && a.offset + size <= next - HEADER_SIZE
      && r.arena.headers == a.headers[next - HEADER_SIZE := StackHeader(a.offset, padding - HEADER_SIZE)]
  {
    if a.offset + size + padding >= a.capacity then
      Allocation(a, None)
    else
      var next := a.offset + padding + size;
      var header := StackHeader(a.offset, padding - HEADER_SIZE);
      Allocation(
        Stack(ZeroRange(a.buffer, a.offset, size), a.headers[next - HEADER_SIZE := header], a.base, next, a.capacity),
        Some(a.base + a.offset))
  }

  /** Models `Stack_AllocAlign`: the padding comes from
      `calc_padding_with_header` at the clamped alignment, and the block is
      placed as `PlaceBlock` describes. */
  function AllocAlign(a: Stack, size: nat, alignment: nat): (r: Allocation)
    requires Valid(a) && IsAlignment(alignment)
    ensures Valid(r.arena) && r.arena.base == a.base && r.arena.capacity == a.capacity
    // out of memory: the comparison is `>=`, so an exact fit is refused
    ensures r.ptr.None? <==> a.offset + size + NextPadding(a, alignment) >= a.capacity
    ensures r.ptr.None? ==> r.arena == a
    ensures r.ptr.Some? ==>
      && r.ptr.value == a.base + a.offset
      && r.arena.offset == a.offset + NextPadding(a, alignment) + size
  {
    PlaceBlock(a, size, NextPadding(a, alignment))
  }

  /** What `Stack_Pop` needs to be defined: at offset 0 nothing, otherwise a
      header in the 16 bytes below the offset. */
  predicate CanPop(a: Stack)
  {
    a.offset == 0 || (HEADER_SIZE <= a.offset && a.offset - HEADER_SIZE in a.headers)
  }

  /** The headers none of whose bytes lie at or above `off`. */
  function HeadersBelow(headers: map<nat, StackHeader>, off: nat): (r: map<nat, StackHeader>)
    ensures forall at :: at in r <==> at in headers && at + HEADER_SIZE <= off
    ensures forall at :: at in r ==> r[at] == headers[at]
  {
    map at | at in headers && at + HEADER_SIZE <= off :: headers[at]
  }

  /** Models `Stack_Pop`. */
  function Pop(a: Stack): (r: Stack)
    requires Valid(a) && CanPop(a)
    ensures Valid(r) && r.base == a.base && r.capacity == a.capacity
    ensures |r.buffer| == |a.buffer|
    ensures a.offset == 0 ==> r == a
    ensures a.offset > 0 ==>
      && r.offset == a.headers[a.offset - HEADER_SIZE].prevOffset
      // the popped bytes are zero, headers among them are gone ...
      && (forall i :: r.offset <= i < a.offset ==> r.buffer[i] == 0)
      && r.headers == HeadersBelow(a.headers, r.offset)
      // ... and every other byte is kept
      && (forall i :: 0 <= i < |a.buffer| && !(r.offset <= i < a.offset) ==> r.buffer[i] == a.buffer[i])
  {
    if a.offset == 0 then a
    else
      var prev := a.headers[a.offset - HEADER_SIZE].prevOffset;
      a.(buffer := ZeroRange(a.buffer, prev, a.offset - prev), headers := HeadersBelow(a.headers, prev), offset := prev)
  }

  /** LIFO discipline: following the `prev_offset` headers down from `off`
      reaches 0, each step going strictly below the header read. */
  predicate Chained(headers: map<nat, StackHeader>, off: nat)
    decreases off
  {
    off == 0 ||
    (HEADER_SIZE <= off && off - HEADER_SIZE in headers &&
     var prev := headers[off - HEADER_SIZE].prevOffset;
     prev <= off - HEADER_SIZE && Chained(headers, prev))
  }

  /** The stack of live allocations: their start offsets, oldest first. */
  function FrameStarts(headers: map<nat, StackHeader>, off: nat): (fs: seq<nat>)
    requires Chained(headers, off)
    ensures |fs| == 0 <==> off == 0
    ensures |fs| > 0 ==> fs[0] == 0
    ensures forall i :: 0 <= i < |fs| ==> fs[i] < off
    decreases off
  {
    if off == 0 then []
    else
      var prev := headers[off - HEADER_SIZE].prevOffset;
      FrameStarts(headers, prev) + [prev]
  }
}
