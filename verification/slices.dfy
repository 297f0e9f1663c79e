/**
 * Go slice primitives the encoder moves bytes with, over immutable sequences.
 */
module Slices {
  import opened Cbor
  import opened BigEndian

  function Min(a: nat, b: nat): nat {
    if a <= b then a else b
  }

  /**
   * Go's `copy(dst[at:], src)`: overwrites min(len(dst)-at, len(src)) bytes of dst
   * from position `at`. Since src is a value here, overlapping source and
   * destination behave like memmove, as Go's copy does.
   */
  function CopyInto(dst: seq<byte>, at: nat, src: seq<byte>): (r: seq<byte>)
    requires at <= |dst|
    ensures |r| == |dst|
  {
    var k := Min(|dst| - at, |src|);
    dst[..at] + src[..k] + dst[at + k..]
  }

  /** Position by position: dst before `at`, then the copied bytes of src, then dst again. */
  lemma CopyIntoAt(dst: seq<byte>, at: nat, src: seq<byte>)
    requires at <= |dst|
    ensures var r, k := CopyInto(dst, at, src), Min(|dst| - at, |src|);
      && r[..at] == dst[..at]
      && (forall i :: at <= i < at + k ==> r[i] == src[i - at])
      && (forall i :: at + k <= i < |dst| ==> r[i] == dst[i])
  {
  }

  /** `binary.BigEndian.PutUintN(dst[at:], v)` for an n-byte N. */
  function PutBigEndian(dst: seq<byte>, at: nat, v: nat, n: nat): (r: seq<byte>)
    requires at + n <= |dst| && v < Pow256(n)
    ensures |r| == |dst|
    ensures FromBigEndian(r[at..at + n]) == v
    ensures r[..at] == dst[..at] && r[at + n..] == dst[at + n..]
  {
    var r := dst[..at] + ToBigEndian(v, n) + dst[at + n..];
    assert r[at..at + n] == ToBigEndian(v, n);
    FromToBigEndian(v, n);
    r
  }

  /** n zero bytes, as appended by `b.add(0, ..., 0)`. */
  function Zeros(n: nat): (z: seq<byte>)
    ensures |z| == n
  {
    seq(n, _ => 0)
  }

  lemma Assoc<T>(a: seq<T>, b: seq<T>, c: seq<T>)
    ensures (a + b) + c == a + (b + c)
  {
  }

  lemma SplitAt<T>(s: seq<T>, i: nat)
    requires i <= |s|
    ensures s == s[..i] + s[i..]
  {
  }

  lemma SnocAt<T>(s: seq<T>, i: nat)
    requires i < |s|
    ensures s[..i + 1] == s[..i] + [s[i]]
  {
  }
}
