/**
 * The CBOR initial byte and its argument (section 3 of RFC 8949): a major type in
 * the top three bits, then either the value itself (0..23) or one of the markers
 * 24/25/26/27 followed by a 1/2/4/8-byte big-endian argument. This module holds
 * the reference definition the encoder is proved against, and a decoder for it.
 */
module Header {
  import opened Cbor
  import opened Wrappers
  import opened BigEndian

  /** The number of argument bytes after the initial byte: the fewest of 0, 1, 2, 4, 8 that hold v. */
  function ArgumentSize(v: uint64): (n: nat)
    ensures n in {0, 1, 2, 4, 8}
    ensures n == 0 <==> v <= 23
    ensures n > 0 ==> v < Pow256(n)
  {
    PowValues();
    if v <= 23 then 0
    else if v <= 0xff then 1
    else if v <= 0xffff then 2
    else if v <= 0xffff_ffff then 4
    else 8
  }

  /** The additional-information marker announcing an n-byte argument. */
  function SizeMarker(n: nat): byte
    requires n in {1, 2, 4, 8}
  {
    if n == 1 then 24 else if n == 2 then 25 else if n == 4 then 26 else 27
  }

  /** The number of argument bytes a marker announces, if it is one. */
  function MarkerSize(minor: nat): Option<nat>
  {
    if minor == 24 then Some(1)
    else if minor == 25 then Some(2)
    else if minor == 26 then Some(4)
    else if minor == 27 then Some(8)
    else None
  }

  /** The shortest encoding of major type t with argument v. */
  function Head(t: byte, v: uint64): (h: seq<byte>)
  {
    var n := ArgumentSize(v);
    if n == 0 then [Or(t, v)] else [Or(t, SizeMarker(n))] + ToBigEndian(v, n)
  }

  /**
   * The header of a signed integer: major type 0 with v itself, or major type 1
   * with argument -1-v (section 3.1 of RFC 8949).
   */
  function SignedHead(v: int): seq<byte>
    requires -0x1_0000_0000_0000_0000 <= v < 0x1_0000_0000_0000_0000
  {
    if v >= 0 then Head(TypePositiveInt, v) else Head(TypeNegativeInt, -1 - v)
  }

  // The source writes each header as a byte list with shifts; these equate the two forms.

  lemma HeadLiteral1(t: byte, v: uint64)
    requires 23 < v <= 0xff
    ensures Head(t, v) == [Or(t, 24), v]
  {
  }

  lemma HeadLiteral2(t: byte, v: uint64)
    requires 0xff < v <= 0xffff
    ensures Head(t, v) == [Or(t, 25), ByteOf(v / 0x100), ByteOf(v)]
  {
    BigEndian2(v);
  }

  lemma HeadLiteral4(t: byte, v: uint64)
    requires 0xffff < v <= 0xffff_ffff
    ensures Head(t, v) == [Or(t, 26), ByteOf(v / 0x100_0000), ByteOf(v / 0x1_0000), ByteOf(v / 0x100), ByteOf(v)]
  {
    BigEndian4(v);
  }

  lemma HeadLiteral8(t: byte, v: uint64)
    requires 0xffff_ffff < v
    ensures Head(t, v) == [Or(t, 27),
        ByteOf(v / 0x100_0000_0000_0000), ByteOf(v / 0x1_0000_0000_0000),
        ByteOf(v / 0x100_0000_0000), ByteOf(v / 0x1_0000_0000),
        ByteOf(v / 0x100_0000), ByteOf(v / 0x1_0000), ByteOf(v / 0x100), ByteOf(v)]
  {
    BigEndian8(v);
    var s := ToBigEndian(v, 8);
    assert Head(t, v) == [Or(t, 27)] + s;
  }

  /** What a decoder reads from an initial byte and its argument. */
  datatype Argument = Argument(major: byte, value: nat, size: nat)

  /** Reads one initial byte and its argument from the front of s. */
  function DecodeHead(s: seq<byte>): (r: Option<Argument>)
    ensures r.Some? ==> 1 <= r.value.size <= |s|
  {
    if |s| == 0 then None
    else
      var major := s[0] - MinorOf(s[0]);
      var minor := MinorOf(s[0]);
      if minor < 24 then Some(Argument(major, minor, 1))
      else match MarkerSize(minor)
        case None => None
        case Some(n) =>
          if |s| < 1 + n then None
          else Some(Argument(major, FromBigEndian(s[1..1 + n]), 1 + n))
  }

  /** The header is one initial byte plus exactly the argument bytes the value needs. */
  lemma HeadShape(t: byte, v: uint64)
    ensures |Head(t, v)| == 1 + ArgumentSize(v)
    ensures |Head(t, v)| == 1 <==> v <= 23
    ensures |Head(t, v)| == 2 <==> 24 <= v <= 0xff
    ensures |Head(t, v)| == 3 <==> 0x100 <= v <= 0xffff
    ensures |Head(t, v)| == 5 <==> 0x1_0000 <= v <= 0xffff_ffff
    ensures |Head(t, v)| == 9 <==> 0x1_0000_0000 <= v
  {
  }

  /** No shorter argument could hold v: each wider size is chosen only when the narrower ones overflow. */
  lemma HeadIsShortest(t: byte, v: uint64, n: nat)
    requires n in {0, 1, 2, 4, 8}
    requires if n == 0 then v <= 23 else v < Pow256(n)
    ensures |Head(t, v)| <= 1 + n
  {
    PowValues();
  }

  /** Decoding an encoded header recovers the major type and the value, and consumes exactly the header. */
  lemma DecodeHeadRoundTrip(t: byte, v: uint64, rest: seq<byte>)
    requires IsMajorType(t)
    ensures DecodeHead(Head(t, v) + rest) == Some(Argument(t, v, |Head(t, v)|))
  {
    var n := ArgumentSize(v);
    if n == 0 {
      assert Head(t, v) == [Or(t, v)];
      InlineRoundTrip(t, v, rest);
    } else {
      assert Head(t, v) == [Or(t, SizeMarker(n))] + ToBigEndian(v, n);
      SizedRoundTrip(t, v, n, rest);
    }
  }

  lemma InlineRoundTrip(t: byte, v: uint64, rest: seq<byte>)
    requires IsMajorType(t) && v <= 23
    ensures DecodeHead([Or(t, v)] + rest) == Some(Argument(t, v, 1))
  {
    HeaderSplits(t, v);
  }

  lemma SizedRoundTrip(t: byte, v: uint64, n: nat, rest: seq<byte>)
    requires IsMajorType(t) && n in {1, 2, 4, 8} && v < Pow256(n)
    ensures DecodeHead([Or(t, SizeMarker(n))] + ToBigEndian(v, n) + rest) == Some(Argument(t, v, 1 + n))
  {
    var s := [Or(t, SizeMarker(n))] + ToBigEndian(v, n) + rest;
    HeaderSplits(t, SizeMarker(n));
    assert MinorOf(s[0]) == SizeMarker(n) && s[0] - MinorOf(s[0]) == t;
    assert MarkerSize(SizeMarker(n)) == Some(n);
    assert s[1..1 + n] == ToBigEndian(v, n);
    FromToBigEndian(v, n);
  }

  /** Different major types or values never share a header. */
  lemma HeadInjective(t: byte, v: uint64, t': byte, v': uint64)
    requires IsMajorType(t) && IsMajorType(t')
    requires Head(t, v) == Head(t', v')
    ensures t == t' && v == v'
  {
    DecodeHeadRoundTrip(t, v, []);
    DecodeHeadRoundTrip(t', v', []);
    assert Head(t, v) + [] == Head(t', v') + [];
  }
}
