/**
 * The vocabulary of the CBOR wire format shared by the encoder: Go's fixed-width
 * integer types (bytes included) as subsets of `int`, Go's bitwise OR on bytes,
 * and the header constants of `cbor.go` and the top of `builder.go`.
 */
module Cbor {

  type byte = x: int | 0 <= x < 0x100

  /** Go's `uint8`, of which `byte` is an alias. */
  type uint8 = byte
  type uint16 = x: int | 0 <= x < 0x1_0000
  type uint32 = x: int | 0 <= x < 0x1_0000_0000
  type uint64 = x: int | 0 <= x < 0x1_0000_0000_0000_0000

  type int8 = x: int | -0x80 <= x < 0x80
  type int16 = x: int | -0x8000 <= x < 0x8000
  type int32 = x: int | -0x8000_0000 <= x < 0x8000_0000
  type int64 = x: int | -0x8000_0000_0000_0000 <= x < 0x8000_0000_0000_0000

  // The eight major types, already shifted into the top three bits of a header byte.
  const TypePositiveInt: byte := 0x00
  const TypeNegativeInt: byte := 0x20
  const TypeByteString: byte := 0x40
  const TypeTextString: byte := 0x60
  const TypeArray: byte := 0x80
  const TypeMap: byte := 0xa0
  const TypeTag: byte := 0xc0
  const TypePrimitives: byte := 0xe0

  /** The major types in the order of section 3.1 of RFC 8949 (major type k at index k). */
  const MajorTypes: seq<byte> := [TypePositiveInt, TypeNegativeInt, TypeByteString,
    TypeTextString, TypeArray, TypeMap, TypeTag, TypePrimitives]

  // Simple values of major type 7.
  const False: byte := 0xf4
  const True: byte := 0xf5
  const Nil: byte := 0xf6

  // The fixed half-precision encodings of NaN and the two infinities.
  const CanonicalNaN: seq<byte> := [0xf9, 0x7e, 0x00]
  const PositiveInfinity: seq<byte> := [0xf9, 0x7c, 0x00]
  const NegativeInfinity: seq<byte> := [0xf9, 0xfc, 0x00]

  /** Go's `a | b` on non-negative integers, bit by bit from the least significant. */
  function BitOr(a: nat, b: nat): nat
    decreases a + b
  {
    if a == 0 && b == 0 then 0
    else 2 * BitOr(a / 2, b / 2) + (if a % 2 == 1 || b % 2 == 1 then 1 else 0)
  }

  /** Go's `a | b` on bytes. */
  function Or(a: byte, b: byte): byte {
    OrBelow(a, b, 0x100);
    BitOr(a, b)
  }

  lemma {:induction false} OrBelow(a: nat, b: nat, m: nat)
    requires m in {1, 2, 4, 8, 16, 32, 64, 128, 256}
    requires a < m && b < m
    ensures BitOr(a, b) < m
  {
    if m > 1 && (a != 0 || b != 0) {
      OrBelow(a / 2, b / 2, m / 2);
    }
  }

  lemma {:induction false} OrZero(a: nat)
    ensures BitOr(a, 0) == a
  {
    if a != 0 {
      OrZero(a / 2);
    }
  }

  /** The k lowest bits of a are clear. */
  predicate LowBitsClear(a: nat, k: nat) {
    k == 0 || (a % 2 == 0 && LowBitsClear(a / 2, k - 1))
  }

  /** b has no bits at or above position k. */
  predicate FitsBits(b: nat, k: nat) {
    if k == 0 then b == 0 else FitsBits(b / 2, k - 1)
  }

  /** OR of values with disjoint bit ranges is their sum. */
  lemma {:induction false} OrOfDisjoint(a: nat, b: nat, k: nat)
    requires LowBitsClear(a, k) && FitsBits(b, k)
    ensures BitOr(a, b) == a + b
  {
    if k == 0 {
      OrZero(a);
    } else {
      OrOfDisjoint(a / 2, b / 2, k - 1);
    }
  }

  /** When a's five low bits are clear and b fits in them, OR is addition. */
  lemma OrDisjoint(a: nat, b: nat)
    requires a % 32 == 0 && b < 32
    ensures BitOr(a, b) == a + b
  {
    var q := a / 32;
    var a1, b1 := a / 2, b / 2;
    var a2, b2 := a1 / 2, b1 / 2;
    var a3, b3 := a2 / 2, b2 / 2;
    var a4, b4 := a3 / 2, b3 / 2;
    assert a == 32 * q && a1 == 16 * q && a2 == 8 * q && a3 == 4 * q && a4 == 2 * q;
    assert LowBitsClear(a4, 1);
    assert LowBitsClear(a3, 2);
    assert LowBitsClear(a2, 3);
    assert LowBitsClear(a1, 4);
    assert LowBitsClear(a, 5);
    assert b4 / 2 == 0;
    assert FitsBits(b4, 1);
    assert FitsBits(b3, 2);
    assert FitsBits(b2, 3);
    assert FitsBits(b1, 4);
    assert FitsBits(b, 5);
    OrOfDisjoint(a, b, 5);
  }

  /** A header byte prefix whose five low bits are free for the additional information. */
  predicate IsMajorType(t: byte) {
    t % 32 == 0
  }

  /** The major type number (0..7) carried by a header byte. */
  function MajorOf(h: byte): (k: nat)
    ensures k < 8
  {
    h / 32
  }

  /** The additional information (low five bits) of a header byte. */
  function MinorOf(h: byte): (m: nat)
    ensures m < 32
  {
    h % 32
  }

  /** Every major-type constant is k*32 for its position k in the RFC order. */
  lemma MajorTypesInOrder()
    ensures |MajorTypes| == 8
    ensures forall k :: 0 <= k < 8 ==> MajorTypes[k] == 32 * k
    ensures forall k :: 0 <= k < 8 ==> IsMajorType(MajorTypes[k]) && MajorOf(MajorTypes[k]) == k
  {
  }

  /** No two major types share a header prefix. */
  lemma MajorTypesDistinct()
    ensures forall i, j :: 0 <= i < j < 8 ==> MajorTypes[i] != MajorTypes[j]
  {
    MajorTypesInOrder();
  }

  /** OR-ing a major type with a value below 32 keeps both halves recoverable. */
  lemma HeaderSplits(t: byte, m: byte)
    requires IsMajorType(t) && m < 32
    ensures Or(t, m) == t + m
    ensures MajorOf(Or(t, m)) == MajorOf(t) && MinorOf(Or(t, m)) == m
  {
    OrDisjoint(t, m);
  }

  /** The simple values and the float headers are major type 7 with the RFC's minors. */
  lemma PrimitiveBytes()
    ensures False == Or(TypePrimitives, 20) && True == Or(TypePrimitives, 21) && Nil == Or(TypePrimitives, 22)
    ensures Or(TypePrimitives, 25) == 0xf9 && Or(TypePrimitives, 26) == 0xfa && Or(TypePrimitives, 27) == 0xfb
    ensures CanonicalNaN[0] == PositiveInfinity[0] == NegativeInfinity[0] == Or(TypePrimitives, 25)
  {
    HeaderSplits(TypePrimitives, 20);
    HeaderSplits(TypePrimitives, 21);
    HeaderSplits(TypePrimitives, 22);
    HeaderSplits(TypePrimitives, 25);
    HeaderSplits(TypePrimitives, 26);
    HeaderSplits(TypePrimitives, 27);
  }
}
