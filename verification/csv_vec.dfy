/** `VecString` of `src/csv.c`: a growable array of `String`s whose first
    `size` slots are live. */
module CsvVec {
  import opened Wrappers
  import opened CsvString

  /** Capacity `VecString_Alloc` gives an array that has none. */
  const INITIAL_SLOTS: nat := 64

  datatype VecString = VecString(items: Option<seq<String>>, size: nat, capacity: nat)

  /** `capacity` slots are allocated (none when `items` is null), the
      first `size` of them live, and at least one slot is always free. */
  predicate Valid(v: VecString)
  {
    && v.size <= v.capacity
    && (v.items.None? ==> v.capacity == 0)
    && (v.items.Some? ==>
          && |v.items.value| == v.capacity && v.size < v.capacity
          && forall i :: 0 <= i < v.size ==> CsvString.Valid(v.items.value[i]))
  }

  /** The live strings. */
  function Live(v: VecString): (ss: seq<String>)
    requires Valid(v)
    ensures |ss| == v.size
    ensures forall i :: 0 <= i < |ss| ==> CsvString.Valid(ss[i])
  {
    if v.items.None? then [] else v.items.value[..v.size]
  }

  /** The texts of the live strings. */
  function Texts(v: VecString): (ts: seq<seq<char>>)
    requires Valid(v)
    ensures |ts| == v.size
    ensures forall i :: 0 <= i < v.size ==> ts[i] == Text(Live(v)[i])
  {
    var live := Live(v);
    seq(v.size, i requires 0 <= i < v.size => Text(live[i]))
  }

  /** Models `VecString_Alloc` (allocation assumed to succeed): one more
      live slot holding the empty string; the returned pointer is the slot
      at index `size - 1` of the result. */
  function Alloc(v: VecString): (r: VecString)
    requires Valid(v)
    ensures Valid(r) && r.items.Some?
    ensures r.size == v.size + 1 && r.size < r.capacity
    ensures Live(r) == Live(v) + [Empty]
    ensures Texts(r) == Texts(v) + [[]]
    ensures v.capacity == 0 ==> r.capacity == INITIAL_SLOTS
    ensures v.size + 1 < v.capacity ==> r.capacity == v.capacity
    ensures 0 < v.capacity <= v.size + 1 ==> r.capacity == 2 * v.capacity
  {
    var v0 := if v.capacity == 0
      then VecString(Some(seq(INITIAL_SLOTS, _ => Empty)), 0, INITIAL_SLOTS)
      else v;
    var v1 := if v0.capacity <= v0.size + 1
      then v0.(items := Some(v0.items.value + seq(v0.capacity, _ => Empty)), capacity := 2 * v0.capacity)
      else v0;
    var r := v1.(items := Some(v1.items.value[v1.size := Empty]), size := v1.size + 1);
    assert Live(r) == Live(v) + [Empty];
    assert Texts(r) == Texts(v) + [[]];
    r
  }

  /** Writing `s` through a pointer to live slot `k`. */
  function Update(v: VecString, k: nat, s: String): (r: VecString)
    requires Valid(v) && k < v.size && CsvString.Valid(s)
    ensures Valid(r) && r.size == v.size && r.capacity == v.capacity
    ensures Live(r) == Live(v)[k := s]
    ensures Texts(r) == Texts(v)[k := Text(s)]
  {
    var r := v.(items := Some(v.items.value[k := s]));
    assert Live(r) == Live(v)[k := s];
    r
  }

  /** Models `VecString_Reset`: every live string is reset and none stays
      live; the array and the strings keep their memory. */
  function Reset(v: VecString): (r: VecString)
    requires Valid(v)
    ensures Valid(r) && r.size == 0 && r.capacity == v.capacity && Texts(r) == []
    ensures r.items.Some? <==> v.items.Some?
    ensures r.items.Some? ==>
      && (forall i :: 0 <= i < v.size ==> r.items.value[i] == CsvString.Reset(v.items.value[i]))
      && (forall i :: v.size <= i < v.capacity ==> r.items.value[i] == v.items.value[i])
  {
    if v.items.None? then v
    else
      var slots := v.items.value;
      VecString(Some(seq(v.capacity, i requires 0 <= i < v.capacity =>
                       if i < v.size then CsvString.Reset(slots[i]) else slots[i])),
                0, v.capacity)
  }

  /** Models `VecString_IsEmpty`. */
  function IsEmpty(v: VecString): (b: bool)
    requires Valid(v)
    ensures b <==> Texts(v) == []
  {
    v.items.None? || v.size == 0
  }

  /** Models `VecString_Free`: the live strings are freed, then the array. */
  function Free(v: VecString): (r: VecString)
    requires Valid(v)
    ensures Valid(r) && r.items.None? && r.capacity == 0 && Texts(r) == []
  {
    if v.items.None? then v else VecString(None, 0, 0)
  }
}
