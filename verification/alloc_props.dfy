/** Properties of the arena of `src/alloc.c` that relate several calls:
    allocation pushes a frame, `Pop` removes exactly the top one, and a run
    of allocations undone by as many pops leaves an empty, zeroed arena. */
module AllocProps {
  import opened Bits
  import opened Bytes
  import opened Wrappers
  import opened Alloc

  /** Two header tables that hold the same headers entirely below `off`. */
  predicate SameBelow(h1: map<nat, StackHeader>, h2: map<nat, StackHeader>, off: nat)
  {
    forall at: nat :: at < off && at + HEADER_SIZE <= off ==>
      (at in h1 <==> at in h2) && (at in h1 ==> h1[at] == h2[at])
  }

  /** The header chain below `off` only depends on the headers below `off`. */
  lemma {:induction false} ChainedPrefix(h1: map<nat, StackHeader>, h2: map<nat, StackHeader>, off: nat)
    requires SameBelow(h1, h2, off)
    ensures Chained(h1, off) == Chained(h2, off)
    ensures Chained(h1, off) ==> FrameStarts(h1, off) == FrameStarts(h2, off)
    decreases off
  {
    if off >= HEADER_SIZE && off - HEADER_SIZE in h1 {
      var prev := h1[off - HEADER_SIZE].prevOffset;
      if prev <= off - HEADER_SIZE {
        ChainedPrefix(h1, h2, prev);
      }
    }
  }

  /** A successful `Stack_AllocAlign` pushes the old offset on the stack of
      frames; a failed one leaves it as it was. */
  lemma AllocPushes(a: Stack, size: nat, alignment: nat)
    requires Valid(a) && IsAlignment(alignment)
    ensures Chained(a.headers, a.offset) ==>
      var r := AllocAlign(a, size, alignment);
      && Chained(r.arena.headers, r.arena.offset)
      && FrameStarts(r.arena.headers, r.arena.offset)
         == FrameStarts(a.headers, a.offset) + (if r.ptr.Some? then [a.offset] else [])
  {
    var r := AllocAlign(a, size, alignment);
    if r.ptr.Some? && Chained(a.headers, a.offset) {
      var at := r.arena.offset - HEADER_SIZE;
      PushHeader(a.headers, a.offset, at, r.arena.headers[at]);
    }
  }

  /** Recording a header that points back at `off`, anywhere at or above
      `off`, extends the chain by the frame starting at `off`. */
  lemma PushHeader(h: map<nat, StackHeader>, off: nat, at: nat, hdr: StackHeader)
    requires Chained(h, off) && off <= at && hdr.prevOffset == off
    ensures Chained(h[at := hdr], at + HEADER_SIZE)
    ensures FrameStarts(h[at := hdr], at + HEADER_SIZE) == FrameStarts(h, off) + [off]
  {
    ChainedPrefix(h, h[at := hdr], off);
  }

  /** Under LIFO use `Stack_Pop` is defined, keeps the discipline and removes
      exactly the top frame, returning to the offset it started at. */
  lemma PopPops(a: Stack)
    requires Valid(a) && Chained(a.headers, a.offset)
    ensures CanPop(a)
    ensures var b := Pop(a);
      var fs := FrameStarts(a.headers, a.offset);
      && Chained(b.headers, b.offset)
      && (a.offset == 0 ==> b == a)
      && (a.offset > 0 ==>
            && b.offset == fs[|fs| - 1]
            && FrameStarts(b.headers, b.offset) == fs[..|fs| - 1])
  {
    if a.offset > 0 {
      var b := Pop(a);
      ChainedPrefix(a.headers, b.headers, b.offset);
    }
  }

  /** Allocation followed immediately by a pop restores the arena, except
      that the block it handed out is now zero. */
  lemma AllocThenPop(a: Stack, size: nat, alignment: nat)
    requires Valid(a) && IsAlignment(alignment)
    ensures var r := AllocAlign(a, size, alignment);
      r.ptr.Some? ==>
        && CanPop(r.arena)
        && Pop(r.arena) == a.(buffer := ZeroRange(a.buffer, a.offset, r.arena.offset - a.offset))
  {
    var r := AllocAlign(a, size, alignment);
    if r.ptr.Some? {
      var b := r.arena;
      assert CanPop(b);
      ZeroRangeIgnoresRange(b.buffer, a.buffer, a.offset, b.offset - a.offset);
      assert HeadersBelow(b.headers, a.offset) == a.headers;
    }
  }

  /** Alignments above the maximum behave exactly like the maximum. */
  lemma ClampedAlignment(a: Stack, size: nat, alignment: nat)
    requires Valid(a) && IsAlignment(alignment) && alignment > MAX_ALIGNMENT
    ensures IsAlignment(MAX_ALIGNMENT)
    ensures AllocAlign(a, size, alignment) == AllocAlign(a, size, MAX_ALIGNMENT)
  {
    assert ClampAlignment(alignment) == ClampAlignment(MAX_ALIGNMENT);
  }

  /** One allocation request: a size and an alignment. */
  datatype Request = Request(size: nat, alignment: nat)

  predicate ValidRequests(reqs: seq<Request>)
  {
    forall i :: 0 <= i < |reqs| ==> IsAlignment(reqs[i].alignment)
  }

  /** The arena after serving `reqs` in order (failed requests change nothing). */
  function AllocMany(a: Stack, reqs: seq<Request>): (b: Stack)
    requires Valid(a) && ValidRequests(reqs)
    ensures Valid(b) && b.base == a.base && b.capacity == a.capacity
    ensures |b.buffer| == |a.buffer| && a.offset <= b.offset
    ensures forall i :: 0 <= i < |a.buffer| && !(a.offset <= i < b.offset) ==> b.buffer[i] == a.buffer[i]
    decreases |reqs|
  {
    if reqs == [] then a
    else AllocMany(AllocAlign(a, reqs[0].size, reqs[0].alignment).arena, reqs[1..])
  }

  /** `fs` starts with the frames of `pre`. */
  predicate Extends(fs: seq<nat>, pre: seq<nat>)
  {
    |pre| <= |fs| && fs[..|pre|] == pre
  }

  lemma ExtendsTransitive(c: seq<nat>, b: seq<nat>, a: seq<nat>)
    requires Extends(c, b) && Extends(b, a)
    ensures Extends(c, a)
  {
    assert c[..|a|] == c[..|b|][..|a|];
  }

  /** Serving requests only pushes frames, at most one per request. */
  lemma {:induction false} AllocManyPushes(a: Stack, reqs: seq<Request>)
    requires Valid(a) && ValidRequests(reqs) && Chained(a.headers, a.offset)
    ensures var b := AllocMany(a, reqs);
      var fa := FrameStarts(a.headers, a.offset);
      && Chained(b.headers, b.offset)
      && Extends(FrameStarts(b.headers, b.offset), fa)
      && |FrameStarts(b.headers, b.offset)| <= |fa| + |reqs|
    decreases |reqs|
  {
    if reqs != [] {
      var next := AllocAlign(a, reqs[0].size, reqs[0].alignment).arena;
      AllocPushes(a, reqs[0].size, reqs[0].alignment);
      AllocManyPushes(next, reqs[1..]);
      var fa := FrameStarts(a.headers, a.offset);
      var fn := FrameStarts(next.headers, next.offset);
      var b := AllocMany(next, reqs[1..]);
      assert Extends(fn, fa);
      ExtendsTransitive(FrameStarts(b.headers, b.offset), fn, fa);
    }
  }

  /** The arena after `n` calls of `Stack_Pop` under LIFO use. */
  function PopMany(a: Stack, n: nat): (b: Stack)
    requires Valid(a) && Chained(a.headers, a.offset)
    ensures Valid(b) && Chained(b.headers, b.offset)
    ensures b.base == a.base && b.capacity == a.capacity && |b.buffer| == |a.buffer|
    ensures b.offset <= a.offset
    decreases n
  {
    if n == 0 then a
    else
      PopPops(a);
      PopMany(Pop(a), n - 1)
  }

  /** `n` pops remove the `n` most recent frames, or all of them when there
      are fewer. */
  lemma {:induction false} PopManyFrames(a: Stack, n: nat)
    requires Valid(a) && Chained(a.headers, a.offset)
    ensures var fa := FrameStarts(a.headers, a.offset);
      var b := PopMany(a, n);
      FrameStarts(b.headers, b.offset) == fa[..if n <= |fa| then |fa| - n else 0]
    decreases n
  {
    var fa := FrameStarts(a.headers, a.offset);
    if n == 0 {
      assert fa[..|fa|] == fa;
    } else {
      PopPops(a);
      var p := Pop(a);
      assert PopMany(a, n) == PopMany(p, n - 1);
      PopManyFrames(p, n - 1);
      if a.offset > 0 {
        var fp := FrameStarts(p.headers, p.offset);
        assert fp == fa[..|fa| - 1];
        var m := if n <= |fa| then |fa| - n else 0;
        assert m == if n - 1 <= |fp| then |fp| - (n - 1) else 0;
        PrefixOfPrefix(fa, |fa| - 1, m);
      }
    }
  }

  lemma PrefixOfPrefix(s: seq<nat>, k: nat, m: nat)
    requires m <= k <= |s|
    ensures s[..k][..m] == s[..m]
  {
  }

  /** `n` pops zero the bytes between the offset they reach and the offset
      they started from, and keep every other byte. */
  lemma {:induction false} PopManyZeroes(a: Stack, n: nat)
    requires Valid(a) && Chained(a.headers, a.offset)
    ensures var b := PopMany(a, n);
      && (forall i :: b.offset <= i < a.offset ==> b.buffer[i] == 0)
      && (forall i :: 0 <= i < |a.buffer| && !(b.offset <= i < a.offset) ==> b.buffer[i] == a.buffer[i])
    decreases n
  {
    if n > 0 {
      PopPops(a);
      var p := Pop(a);
      var b := PopMany(a, n);
      assert b == PopMany(p, n - 1);
      PopManyZeroes(p, n - 1);
      forall i | b.offset <= i < a.offset
        ensures b.buffer[i] == 0
      {
        if i >= p.offset {
          assert b.buffer[i] == p.buffer[i];
        }
      }
    }
  }

  /** N allocations on an empty arena followed by N pops give back the empty
      arena, with every byte the allocations used set to zero and the rest
      of the buffer as it was. */
  lemma AllocsThenPops(a: Stack, reqs: seq<Request>)
    requires Valid(a) && a.offset == 0 && ValidRequests(reqs)
    ensures Chained(AllocMany(a, reqs).headers, AllocMany(a, reqs).offset)
    ensures var full := AllocMany(a, reqs);
      PopMany(full, |reqs|) == a.(buffer := ZeroRange(a.buffer, 0, full.offset))
  {
    assert Chained(a.headers, a.offset);
    AllocManyPushes(a, reqs);
    var full := AllocMany(a, reqs);
    PopManyFrames(full, |reqs|);
    PopManyZeroes(full, |reqs|);
    var b := PopMany(full, |reqs|);
    assert b.headers == map[] == a.headers;
    ZeroRangeIgnoresRange(b.buffer, a.buffer, 0, full.offset);
  }

  /** A request ending exactly at the capacity is refused: with 32 bytes and
      a 16-byte header (alignment 1 needs no further padding), 16 bytes do
      not fit but 15 do. */
  lemma ExactFitRejected(buf: seq<byte>, base: nat)
    requires |buf| == 32 && base + 32 < WORD
    ensures IsAlignment(1)
    ensures var a := Init(buf, base, 32);
      && AllocAlign(a, 16, 1).ptr.None?
      && AllocAlign(a, 15, 1).ptr == Some(base)
  {
    assert BitCount(1) == 1;
    var a := Init(buf, base, 32);
    assert NextPadding(a, 1) == 16;
  }

  /** The returned address is the old top, which need not be aligned: on an
      8-aligned buffer the second one-byte allocation at alignment 8 starts
      17 bytes in. */
  lemma ReturnedAddressNotAligned(buf: seq<byte>, base: nat)
    requires |buf| == 64 && base + 64 < WORD && base % 8 == 0
    ensures IsAlignment(8)
    ensures var a := Init(buf, base, 64);
      var first := AllocAlign(a, 1, 8);
      && first.ptr == Some(base)
      && AllocAlign(first.arena, 1, 8).ptr == Some(base + 17)
      && (base + 17) % 8 != 0
  {
    var first := FirstOneByteBlock(buf, base);
    SecondOneByteBlock(first.arena);
  }

  /** A one-byte allocation at alignment 8 from offset 17 of an 8-aligned
      buffer returns the unaligned address 17 bytes in. */
  lemma SecondOneByteBlock(s: Stack)
    requires Valid(s) && s.base % 8 == 0 && s.offset == 17 && s.capacity == 64
    ensures IsAlignment(8)
    ensures AllocAlign(s, 1, 8).ptr == Some(s.base + 17)
  {
    assert BitCount(8) == 1;
    AlignedInWindow(s.base + 17, NextPadding(s, 8), 23);
  }

  /** The first one-byte allocation at alignment 8 on an 8-aligned buffer
      needs just the header as padding. */
  lemma FirstOneByteBlock(buf: seq<byte>, base: nat) returns (first: Allocation)
    requires |buf| == 64 && base + 64 < WORD && base % 8 == 0
    ensures IsAlignment(8)
    ensures first == AllocAlign(Init(buf, base, 64), 1, 8)
    ensures first.ptr == Some(base) && first.arena.offset == 17
  {
    assert BitCount(8) == 1;
    var a := Init(buf, base, 64);
    AlignedInWindow(base, NextPadding(a, 8), 16);
    first := AllocAlign(a, 1, 8);
  }

  /** Within one window of eight values only one padding aligns `x` to 8. */
  lemma AlignedInWindow(x: nat, p: nat, e: nat)
    requires 16 <= p < 24 && 16 <= e < 24
    requires (x + p) % 8 == 0 && (x + e) % 8 == 0
    ensures p == e
  {
  }
}
