/** Byte strings and the little helpers every layer shares. */
module Bytes {

  /** One memory cell. */
  type byte = x: int | 0 <= x < 256

  type Bytes = seq<byte>

  function Zeros(n: nat): (z: Bytes)
    ensures |z| == n
    ensures forall i :: 0 <= i < n ==> z[i] == 0
  {
    seq(n, i => 0)
  }

  /** `row`, filled up with zeros to at least `n` bytes. */
  function Pad(row: Bytes, n: nat): (p: Bytes)
    ensures |p| == if |row| > n then |row| else n
    ensures row <= p
    ensures forall i :: |row| <= i < |p| ==> p[i] == 0
  {
    if |row| >= n then row else row + Zeros(n - |row|)
  }

  /** `w` is `v` followed by nothing but zeros. */
  predicate ZeroTail(v: Bytes, w: Bytes) {
    v <= w && forall i :: |v| <= i < |w| ==> w[i] == 0
  }

  /** memcpy(data + at, bytes, |bytes|) */
  function Patch(data: Bytes, at: nat, bytes: Bytes): (r: Bytes)
    requires at + |bytes| <= |data|
    ensures |r| == |data|
    ensures r[at..at + |bytes|] == bytes
    ensures forall lo, hi :: 0 <= lo <= hi <= at ==> r[lo..hi] == data[lo..hi]
    ensures forall lo, hi :: at + |bytes| <= lo <= hi <= |data| ==> r[lo..hi] == data[lo..hi]
  {
    data[..at] + bytes + data[at + |bytes|..]
  }
}
