/** The `String` of `include/types.h` (`begin`, `size`, `capacity`) and its
    append functions. The allocator is a parameter: `realloc` grants a
    block of at most `limit` bytes and fails for anything larger. */
module TypesString {
  import opened Wrappers
  import opened Growth

  const NUL: char := '\0'

  /** Largest value of a 32-bit `int`. */
  const INT_MAX: nat := 0x7fff_ffff

  datatype Status = Success | Failure

  /** `begin` holds the `size` characters written so far; it is null only
      for the empty, unallocated string, or after a failed `realloc`. */
  datatype String = String(begin: Option<seq<char>>, size: nat, capacity: nat)

  predicate Valid(s: String)
  {
    && s.size <= s.capacity
    && (s.begin.None? ==> s.size == 0 && s.capacity == 0)
    && (s.begin.Some? ==> |s.begin.value| == s.size)
  }

  function Text(s: String): (t: seq<char>)
    requires Valid(s)
    ensures |t| == s.size
  {
    if s.begin.None? then [] else s.begin.value
  }

  /** Doubling the capacity until `len` more characters fit never asks for
      more than `bound`: either nothing has to grow, or the last (largest)
      doubling is at most `bound`. */
  predicate DoublingsWithin(s: String, len: nat, bound: nat)
  {
    s.size + len <= s.capacity || (s.capacity > 0 && GrowTo(s.capacity, s.size + len) <= bound)
  }

  /** What `String_CheckCapacity` needs to terminate and compute in range:
      a zero capacity never grows, and every `capacity * 2` fits the `int`
      it is stored in. */
  predicate CanGrow(s: String, len: nat)
  {
    (s.capacity > 0 || s.size + len == 0) && DoublingsWithin(s, len, INT_MAX)
  }

  /** The capacity after room for `len` more characters has been made. */
  function Needed(s: String, len: nat): (c: nat)
    requires s.capacity > 0 || s.size + len <= s.capacity
    ensures c >= s.size + len && c >= s.capacity
  {
    if s.size + len <= s.capacity then s.capacity else GrowTo(s.capacity, s.size + len)
  }

  /** The grown capacity is the old one times the least power of two that
      makes room. */
  lemma NeededIsLeast(s: String, len: nat) returns (k: nat)
    requires s.capacity > 0 || s.size + len <= s.capacity
    ensures Needed(s, len) == s.capacity * Pow2(k)
    ensures forall j: nat :: s.capacity * Pow2(j) >= s.size + len ==> Needed(s, len) <= s.capacity * Pow2(j)
  {
    if s.size + len <= s.capacity {
      k := 0;
      forall j: nat
        ensures s.capacity <= s.capacity * Pow2(j)
      {
        MultipleAtLeast(s.capacity, j);
      }
    } else {
      k := GrowToIsPowerMultiple(s.capacity, s.size + len);
      forall j: nat | s.capacity * Pow2(j) >= s.size + len
        ensures Needed(s, len) <= s.capacity * Pow2(j)
      {
        GrowToLeast(s.capacity, s.size + len, j);
      }
    }
  }

  /** Models `String_CheckCapacity`: double the capacity until `size + len`
      fits; a refused `realloc` nulls `begin` and reports failure. */
  method CheckCapacity(s: String, len: nat, limit: nat) returns (status: Status, r: String)
    requires Valid(s) && CanGrow(s, len)
    ensures status == Success <==> DoublingsWithin(s, len, limit)
    ensures s.size + len <= s.capacity ==> r == s
    ensures status == Success ==>
      && Valid(r) && Text(r) == Text(s)
      && r.capacity == Needed(s, len) && r.capacity >= s.size + len
    ensures status == Failure ==> r.begin.None? && r.size == s.size && s.capacity <= r.capacity
  {
    var need := s.size + len;
    r := s;
    while need > r.capacity
      invariant Valid(r) && r.size == s.size && Text(r) == Text(s)
      invariant s.capacity <= r.capacity && (r.capacity > 0 || need == 0)
      invariant r.capacity == s.capacity || r.capacity <= limit
      invariant need <= s.capacity ==> r == s
      invariant need > s.capacity ==> GrowTo(r.capacity, need) == GrowTo(s.capacity, need)
      decreases need - r.capacity
    {
      // `int new_capacity = capacity * 2;` stays below INT_MAX
      var newCapacity := 2 * r.capacity;
      assert newCapacity <= INT_MAX;
      if newCapacity > limit {
        assert GrowTo(r.capacity, need) == GrowTo(newCapacity, need) >= newCapacity;
        return Failure, r.(begin := None);
      }
      r := r.(capacity := newCapacity);
    }
    assert need > s.capacity ==> r.capacity == GrowTo(r.capacity, need);
    return Success, r;
  }

  /** Models `String_Append`: `len` characters from `start`; copying none
      leaves the string as it was. */
  method Append(s: String, start: seq<char>, limit: nat) returns (status: Status, r: String)
    requires Valid(s) && CanGrow(s, |start|)
    ensures status == Success <==> DoublingsWithin(s, |start|, limit)
    ensures start == [] ==> r == s
    ensures status == Success ==>
      && Valid(r) && Text(r) == Text(s) + start && r.capacity == Needed(s, |start|)
    ensures status == Failure ==> r.begin.None? && r.size == s.size
  {
    status, r := CheckCapacity(s, |start|, limit);
    if status == Success && start != [] {
      r := String(Some(Text(r) + start), r.size + |start|, r.capacity);
    }
  }

  /** `strlen`: the characters before the first NUL. */
  function Strlen(cs: seq<char>): (n: nat)
    requires NUL in cs
    ensures n < |cs| && cs[n] == NUL
    ensures forall i :: 0 <= i < n ==> cs[i] != NUL
  {
    if cs[0] == NUL then 0 else 1 + Strlen(cs[1..])
  }

  /** A C string given as its characters up to and including a NUL; only
      what precedes the first NUL belongs to it. */
  function CStr(cs: seq<char>): (t: seq<char>)
    requires NUL in cs
    ensures NUL !in t
  {
    cs[..Strlen(cs)]
  }

  /** Models `String_AppendStr`; `strlen` is stored in an `int`. */
  method AppendStr(s: String, input: seq<char>, limit: nat) returns (status: Status, r: String)
    requires Valid(s) && NUL in input && Strlen(input) <= INT_MAX
    requires CanGrow(s, Strlen(input))
    ensures status == Success <==> DoublingsWithin(s, Strlen(input), limit)
    ensures Strlen(input) == 0 ==> r == s
    ensures status == Success ==>
      && Valid(r) && Text(r) == Text(s) + CStr(input) && r.capacity == Needed(s, Strlen(input))
    ensures status == Failure ==> r.begin.None? && r.size == s.size
  {
    var strLen := Strlen(input);
    status, r := CheckCapacity(s, strLen, limit);
    if status == Success && strLen > 0 {
      r := String(Some(Text(r) + input[..strLen]), r.size + strLen, r.capacity);
    }
  }

  predicate Terminated(args: seq<seq<char>>)
  {
    forall i :: 0 <= i < |args| ==> NUL in args[i]
  }

  /** The C strings of `args`, one after the other. */
  function Joined(args: seq<seq<char>>): (t: seq<char>)
    requires Terminated(args)
    ensures NUL !in t
    decreases |args|
  {
    if args == [] then [] else Joined(args[..|args| - 1]) + CStr(args[|args| - 1])
  }

  /** Models `String_AppendMany`: the arguments before the terminating null
      are appended in order until the allocator refuses one; `appended`
      counts those that succeeded. */
  method AppendMany(s: String, args: seq<seq<char>>, limit: nat)
    returns (status: Status, r: String, appended: nat)
    requires Valid(s) && Terminated(args)
    requires forall i :: 0 <= i < |args| ==> Strlen(args[i]) <= INT_MAX
    requires CanGrow(s, |Joined(args)|)
    ensures appended <= |args|
    ensures status == Success <==> appended == |args|
    ensures status == Success <==> DoublingsWithin(s, |Joined(args)|, limit)
    ensures status == Success ==>
      && Valid(r) && Text(r) == Text(s) + Joined(args) && r.capacity == Needed(s, |Joined(args)|)
    ensures status == Failure ==>
      // the arguments before `appended` were granted, the one at `appended` was refused
      && appended < |args|
      && DoublingsWithin(s, |Joined(args[..appended])|, limit)
      && !DoublingsWithin(s, |Joined(args[..appended + 1])|, limit)
      && r.begin.None? && r.size == s.size + |Joined(args[..appended])|
  {
    r := s;
    appended := 0;
    while appended < |args|
      invariant appended <= |args| && Appended(s, args, appended, r, limit)
    {
      var next;
      status, next := AppendArgument(s, args, appended, r, limit);
      if status == Failure {
        r := next;
        return;
      }
      r, appended := next, appended + 1;
    }
    assert args[..appended] == args;
    status := Success;
  }

  /** The loop state of `String_AppendMany` once the first `k` arguments
      have been appended to `s`, giving `r`. */
  predicate Appended(s: String, args: seq<seq<char>>, k: nat, r: String, limit: nat)
    requires Valid(s) && Terminated(args) && k <= |args| && CanGrow(s, |Joined(args)|)
  {
    && |Joined(args[..k])| <= |Joined(args)|
    && Valid(r) && Text(r) == Text(s) + Joined(args[..k])
    && r.capacity == Needed(s, |Joined(args[..k])|)
    && DoublingsWithin(s, |Joined(args[..k])|, limit)
  }

  /** One round of the loop of `String_AppendMany`: argument `k` goes after
      the first `k`, and is granted exactly when the first `k + 1` together
      fit the allocator. */
  method AppendArgument(s: String, args: seq<seq<char>>, k: nat, r: String, limit: nat)
    returns (status: Status, next: String)
    requires Valid(s) && Terminated(args) && k < |args|
    requires forall i :: 0 <= i < |args| ==> Strlen(args[i]) <= INT_MAX
    requires CanGrow(s, |Joined(args)|) && Appended(s, args, k, r, limit)
    ensures status == Success <==> DoublingsWithin(r, Strlen(args[k]), limit)
    ensures status == Success <==> DoublingsWithin(s, |Joined(args[..k + 1])|, limit)
    ensures status == Success ==> Appended(s, args, k + 1, next, limit)
    ensures status == Failure ==>
      && !DoublingsWithin(s, |Joined(args)|, limit)
      && next.begin.None? && next.size == r.size
  {
    ArgumentStep(s, args, k, r, limit);
    status, next := AppendStr(r, args[k], limit);
    if status == Success {
      ConcatAssoc(Text(s), Joined(args[..k]), CStr(args[k]));
      assert Text(next) == Text(s) + Joined(args[..k + 1]);
    }
  }

  /** Growing by the first `k` arguments and then by argument `k` is the same
      as growing by the first `k + 1` at once. */
  lemma ArgumentStep(s: String, args: seq<seq<char>>, k: nat, r: String, limit: nat)
    requires Valid(s) && Terminated(args) && k < |args|
    requires CanGrow(s, |Joined(args)|) && Appended(s, args, k, r, limit)
    ensures Joined(args[..k + 1]) == Joined(args[..k]) + CStr(args[k])
    ensures |Joined(args[..k + 1])| <= |Joined(args)|
    ensures CanGrow(r, Strlen(args[k]))
    ensures DoublingsWithin(r, Strlen(args[k]), limit) <==> DoublingsWithin(s, |Joined(args[..k + 1])|, limit)
    ensures Needed(r, Strlen(args[k])) == Needed(s, |Joined(args[..k + 1])|)
    ensures DoublingsWithin(s, |Joined(args)|, limit) ==> DoublingsWithin(s, |Joined(args[..k + 1])|, limit)
  {
    JoinedPrefix(args, k);
    GrowInSteps(s, |Joined(args[..k])|, Strlen(args[k]), |Joined(args)|, r, limit);
  }

  /** `ArgumentStep` for lengths: `a` already added, `b` to add, `total` the
      most that will ever be added. */
  lemma GrowInSteps(s: String, a: nat, b: nat, total: nat, r: String, limit: nat)
    requires a + b <= total && CanGrow(s, total)
    requires r.size == s.size + a && r.capacity == Needed(s, a)
    requires DoublingsWithin(s, a, limit)
    ensures CanGrow(r, b)
    ensures DoublingsWithin(r, b, limit) <==> DoublingsWithin(s, a + b, limit)
    ensures Needed(r, b) == Needed(s, a + b)
    ensures DoublingsWithin(s, total, limit) ==> DoublingsWithin(s, a + b, limit)
  {
    DoublingsMonotone(s, total, a + b, INT_MAX);
    DoublingsMonotone(s, total, a + b, limit);
    DoublingsMonotone(s, a + b, a, INT_MAX);
    DoublingsInSteps(s, a, b, r, INT_MAX);
    NeededInSteps(s, a, b, r);
    DoublingsInSteps(s, a, b, r, limit);
  }

  lemma ConcatAssoc(x: seq<char>, y: seq<char>, z: seq<char>)
    ensures x + y + z == x + (y + z)
  {
  }

  /** One more argument extends `Joined` of a prefix, which never exceeds
      `Joined` of the whole list. */
  lemma JoinedPrefix(args: seq<seq<char>>, k: nat)
    requires Terminated(args) && k < |args|
    ensures Joined(args[..k + 1]) == Joined(args[..k]) + CStr(args[k])
    ensures |Joined(args[..k + 1])| <= |Joined(args)|
  {
    assert args[..k + 1][..k] == args[..k];
    JoinedMonotone(args, k + 1);
  }

  lemma {:induction false} JoinedMonotone(args: seq<seq<char>>, k: nat)
    requires Terminated(args) && k <= |args|
    ensures |Joined(args[..k])| <= |Joined(args)|
    decreases |args|
  {
    if k < |args| {
      var init := args[..|args| - 1];
      assert args[..k] == init[..k];
      JoinedMonotone(init, k);
    } else {
      assert args[..k] == args;
    }
  }

  /** Room for fewer characters never asks for a larger block. */
  lemma DoublingsMonotone(s: String, x: nat, y: nat, bound: nat)
    requires y <= x
    ensures DoublingsWithin(s, x, bound) ==> DoublingsWithin(s, y, bound)
  {
    if s.size + y > s.capacity && s.capacity > 0 {
      GrowToMonotone(s.capacity, s.size + y, s.size + x);
    }
  }

  /** Making room for `a` characters and then for `b` more ends at the
      capacity that making room for `a + b` at once reaches. */
  lemma NeededInSteps(s: String, a: nat, b: nat, r: String)
    requires s.capacity > 0 || s.size + a + b == 0
    requires r.size == s.size + a && r.capacity == Needed(s, a)
    ensures r.capacity > 0 || r.size + b == 0
    ensures Needed(r, b) == Needed(s, a + b)
  {
    if s.capacity > 0 {
      assert r.capacity == GrowTo(s.capacity, s.size + a);
      GrowToTwice(s.capacity, s.size + a, s.size + a + b);
    }
  }

  /** When room for `a` characters was granted, room for `b` more is
      granted exactly when room for `a + b` at once would be. */
  lemma DoublingsInSteps(s: String, a: nat, b: nat, r: String, bound: nat)
    requires s.capacity > 0 || s.size + a + b == 0
    requires r.size == s.size + a && r.capacity == Needed(s, a)
    requires DoublingsWithin(s, a, bound)
    ensures DoublingsWithin(r, b, bound) <==> DoublingsWithin(s, a + b, bound)
  {
    var t := s.size + a + b;
    if s.capacity > 0 && t > s.capacity {
      GrowToTwice(s.capacity, s.size + a, t);
    }
  }
}
