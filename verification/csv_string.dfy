/** The growable, not null-terminated character array `String` of
    `src/csv.c` (`items`, `size`, `capacity`). Memory is a sequence of cells;
    a cell that `realloc` added and nothing has written yet is `Unset`. */
module CsvString {
  import opened Wrappers
  import opened Growth

  const NUL: char := '\0'

  /** Capacity `String_Append` gives a string that has none. */
  const INITIAL_CAPACITY: nat := 64

  datatype Cell = Byte(c: char) | Unset

  datatype String = String(items: Option<seq<Cell>>, size: nat, capacity: nat)

  /** `capacity` cells are allocated (none when `items` is null) and the
      first `size` of them hold characters. */
  predicate Valid(s: String)
  {
    && s.size <= s.capacity
    && (s.items.None? ==> s.capacity == 0)
    && (s.items.Some? ==>
          && |s.items.value| == s.capacity
          && forall i :: 0 <= i < s.size ==> s.items.value[i].Byte?)
  }

  /** The characters `items[0 .. size)`. */
  function Text(s: String): (t: seq<char>)
    requires Valid(s)
    ensures |t| == s.size
    ensures forall i :: 0 <= i < s.size ==> s.items.value[i] == Byte(t[i])
  {
    seq(s.size, i requires 0 <= i < s.size => s.items.value[i].c)
  }

  /** The string `String_Free` and `VecString_Alloc` leave behind. */
  const Empty: String := String(None, 0, 0)

  /** Models `String_Resize` (allocation assumed to succeed): growing to
      `capacity` keeps the text and zeroes `capacity - old capacity` cells
      from `size` on, which need not reach the end of the new block. */
  function Resize(s: String, capacity: nat): (r: String)
    requires Valid(s)
    ensures Valid(r) && r.size == s.size && Text(r) == Text(s)
    ensures s.capacity >= capacity ==> r == s
    ensures s.capacity < capacity ==>
      && r.capacity == capacity && r.items.Some?
      && (forall i :: s.size <= i < s.size + (capacity - s.capacity) ==> r.items.value[i] == Byte(NUL))
      && (forall i :: s.size + (capacity - s.capacity) <= i < s.capacity ==> r.items.value[i] == s.items.value[i])
      && (forall i :: s.size + (capacity - s.capacity) <= i < capacity && s.capacity <= i ==> r.items.value[i] == Unset)
  {
    if s.capacity >= capacity then s
    else
      var prior := if s.items.Some? then s.items.value else [];
      var grown := capacity - s.capacity;
      String(Some(seq(capacity, i requires 0 <= i < capacity =>
                 if s.size <= i < s.size + grown then Byte(NUL)
                 else if i < |prior| then prior[i]
                 else Unset)),
             s.size, capacity)
  }

  /** The doubling loop of `String_Append`: `while (capacity <= size + len)`. */
  function Reserve(s: String, len: nat): (r: String)
    requires Valid(s) && s.capacity > 0
    ensures Valid(r) && r.size == s.size && Text(r) == Text(s)
    ensures r.capacity == GrowTo(s.capacity, s.size + len + 1)
    decreases s.size + len + 1 - s.capacity
  {
    if s.capacity <= s.size + len then Reserve(Resize(s, 2 * s.capacity), len)
    else s
  }

  /** `memcpy(&items[size], other, len); size += len;` */
  function Write(s: String, other: seq<char>): (r: String)
    requires Valid(s) && s.size + |other| <= s.capacity
    ensures Valid(r) && r.capacity == s.capacity && r.size == s.size + |other|
    ensures Text(r) == Text(s) + other
  {
    if other == [] then s
    else
      var cells := s.items.value;
      var r := String(Some(seq(s.capacity, i requires 0 <= i < s.capacity =>
                             if s.size <= i < s.size + |other| then Byte(other[i - s.size])
                             else cells[i])),
                      s.size + |other|, s.capacity);
      assert Text(r) == Text(s) + other;
      r
  }

  /** The capacity a string starts doubling from. */
  function StartCapacity(s: String): nat
  {
    if s.capacity == 0 then INITIAL_CAPACITY else s.capacity
  }

  /** Models `String_Append` (allocation assumed to succeed). */
  function Append(s: String, other: seq<char>): (r: String)
    requires Valid(s)
    ensures Valid(r)
    ensures Text(r) == Text(s) + other && r.size == s.size + |other|
    ensures r.size < r.capacity
    ensures r.capacity == GrowTo(StartCapacity(s), s.size + |other| + 1)
  {
    var s0 := if s.capacity == 0 then Resize(s, INITIAL_CAPACITY).(size := 0) else s;
    Write(Reserve(s0, |other|), other)
  }

  /** Models `String_Reset`. */
  function Reset(s: String): (r: String)
    requires Valid(s)
    ensures Valid(r) && Text(r) == []
    ensures r.capacity == s.capacity && r.items.Some? == s.items.Some?
    ensures r.items.Some? ==> forall i :: 0 <= i < r.capacity ==> r.items.value[i] == Byte(NUL)
  {
    if s.items.None? then s
    else String(Some(seq(s.capacity, _ => Byte(NUL))), 0, s.capacity)
  }

  /** Models `String_IsEmpty`. */
  function IsEmpty(s: String): (b: bool)
    requires Valid(s)
    ensures b <==> Text(s) == []
  {
    s.items.None? || s.size == 0
  }

  /** Models `String_Free`. */
  function Free(s: String): (r: String)
    requires Valid(s)
    ensures Valid(r) && Text(r) == [] && r.capacity == 0 && r.items.None?
  {
    if s.items.None? then s else Empty
  }

  /** The appended string's capacity is the start capacity times the least
      power of two that leaves room for one more character. */
  lemma AppendCapacityLeast(s: String, other: seq<char>) returns (k: nat)
    requires Valid(s)
    ensures Append(s, other).capacity == StartCapacity(s) * Pow2(k)
    ensures forall j: nat :: StartCapacity(s) * Pow2(j) > s.size + |other| ==>
      Append(s, other).capacity <= StartCapacity(s) * Pow2(j)
  {
    var need := s.size + |other| + 1;
    k := GrowToIsPowerMultiple(StartCapacity(s), need);
    forall j: nat | StartCapacity(s) * Pow2(j) > s.size + |other|
      ensures Append(s, other).capacity <= StartCapacity(s) * Pow2(j)
    {
      GrowToLeast(StartCapacity(s), need, j);
    }
  }

  /** After `String_Reset` an append yields exactly the appended text, in
      the capacity the string already had. */
  lemma ResetThenAppend(s: String, t: seq<char>)
    requires Valid(s) && |t| < s.capacity
    ensures Text(Append(Reset(s), t)) == t
    ensures Append(Reset(s), t).capacity == s.capacity
  {
  }

  /** Doubling a partly used string leaves its last cell unset: the zeroed
      range starts at `size`, not at the old capacity. */
  lemma ResizeLeavesTailUnset(s: String)
    requires Valid(s) && s.size < s.capacity
    ensures Resize(s, 2 * s.capacity).items.value[2 * s.capacity - 1] == Unset
  {
  }
}
