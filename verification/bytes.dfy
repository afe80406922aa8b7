/** Bytes of the arena's buffer and `memset(…, 0, …)` on them. */
module Bytes {

  type byte = x: int | 0 <= x < 256

  /** `len` zero bytes. */
  function Zeros(len: nat): (bs: seq<byte>)
    ensures |bs| == len
    ensures forall i :: 0 <= i < len ==> bs[i] == 0
  {
    seq(len, _ => 0)
  }

  /** `memset(buf + from, 0, len)`. */
  function ZeroRange(buf: seq<byte>, from: nat, len: nat): (r: seq<byte>)
    requires from + len <= |buf|
    ensures |r| == |buf|
    ensures forall i :: from <= i < from + len ==> r[i] == 0
    ensures forall i :: 0 <= i < |buf| && !(from <= i < from + len) ==> r[i] == buf[i]
  {
    seq(|buf|, i requires 0 <= i < |buf| => if from <= i < from + len then 0 else buf[i])
  }

  /** Zeroing a range forgets what the range held. */
  lemma ZeroRangeIgnoresRange(b1: seq<byte>, b2: seq<byte>, from: nat, len: nat)
    requires from + len <= |b1| == |b2|
    requires forall i :: 0 <= i < |b1| && !(from <= i < from + len) ==> b1[i] == b2[i]
    ensures ZeroRange(b1, from, len) == ZeroRange(b2, from, len)
  {
  }
}
