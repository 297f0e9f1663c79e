/**
 * Floating-point emitters over raw IEEE 754 bit patterns. NaN and the
 * infinities are recognised from the exponent and mantissa fields; the
 * shortening under `Float16` depends on float conversions outside this model,
 * so their verdicts are parameters:
 *   - `narrow`: Some(bits of float32(v)) when float64(float32(v)) == v, else None;
 *   - `half`: Some(bits of the float16) when the float16 library finds v exactly
 *     representable (directly, or after its float32->float16->float32 round trip).
 */
module Floats {
  import opened Cbor
  import opened Wrappers
  import opened BigEndian
  import opened Header
  import opened Encoder

  // Fields of a binary32 pattern: 1 sign bit, 8 exponent bits, 23 mantissa bits.
  function Exponent32(f: uint32): nat { (f / 0x80_0000) % 0x100 }
  function Mantissa32(f: uint32): nat { f % 0x80_0000 }
  predicate Negative32(f: uint32) { f >= 0x8000_0000 }
  predicate IsNaN32(f: uint32) { Exponent32(f) == 0xff && Mantissa32(f) != 0 }
  predicate IsInf32(f: uint32) { Exponent32(f) == 0xff && Mantissa32(f) == 0 }

  // Fields of a binary64 pattern: 1 sign bit, 11 exponent bits, 52 mantissa bits.
  function Exponent64(f: uint64): nat { (f / 0x10_0000_0000_0000) % 0x800 }
  function Mantissa64(f: uint64): nat { f % 0x10_0000_0000_0000 }
  predicate Negative64(f: uint64) { f >= 0x8000_0000_0000_0000 }
  predicate IsNaN64(f: uint64) { Exponent64(f) == 0x7ff && Mantissa64(f) != 0 }
  predicate IsInf64(f: uint64) { Exponent64(f) == 0x7ff && Mantissa64(f) == 0 }

  /** A float data item: major type 7, the width marker, then the n-byte pattern. */
  function FloatItem(n: nat, bits: nat): seq<byte>
    requires n in {2, 4, 8} && bits < Pow256(n)
  {
    [Or(TypePrimitives, SizeMarker(n))] + ToBigEndian(bits, n)
  }

  /** A float item decodes as major type 7 carrying exactly the bit pattern. */
  lemma FloatItemDecodes(n: nat, bits: nat, rest: seq<byte>)
    requires n in {2, 4, 8} && bits < Pow256(n)
    ensures DecodeHead(FloatItem(n, bits) + rest) == Some(Argument(TypePrimitives, bits, 1 + n))
  {
    SizedRoundTrip(TypePrimitives, bits, n, rest);
  }

  function AddFloat16Bits(b: Builder, f: uint16): (r: Builder)
    ensures Appends(b, r, FloatItem(2, f))
  {
    BigEndian2(f);
    AddRawBytes(b, [Or(TypePrimitives, 25), ByteOf(f / 0x100), ByteOf(f)])
  }

  function AddFloat32Bits(b: Builder, f: uint32): (r: Builder)
    ensures Appends(b, r, FloatItem(4, f))
  {
    BigEndian4(f);
    AddRawBytes(b, [Or(TypePrimitives, 26), ByteOf(f / 0x100_0000), ByteOf(f / 0x1_0000), ByteOf(f / 0x100), ByteOf(f)])
  }

  function AddFloat64Bits(b: Builder, f: uint64): (r: Builder)
    ensures Appends(b, r, FloatItem(8, f))
  {
    BigEndian8(f);
    var s := ToBigEndian(f, 8);
    assert FloatItem(8, f) == [Or(TypePrimitives, 27)] + s;
    AddRawBytes(b, [Or(TypePrimitives, 27),
      ByteOf(f / 0x100_0000_0000_0000), ByteOf(f / 0x1_0000_0000_0000),
      ByteOf(f / 0x100_0000_0000), ByteOf(f / 0x1_0000_0000),
      ByteOf(f / 0x100_0000), ByteOf(f / 0x1_0000), ByteOf(f / 0x100), ByteOf(f)])
  }

  /** The three-byte half-precision infinity of the given sign. */
  function Infinity(negative: bool): seq<byte> {
    if negative then NegativeInfinity else PositiveInfinity
  }

  function AddFloat32(b: Builder, v: uint32, half: Option<uint16>): (r: Builder)
    ensures IsNaN32(v) && b.modeNaN == NaN7e00 ==> Appends(b, r, [0xf9, 0x7e, 0x00])
    ensures IsInf32(v) && b.modeInf == InfFloat16 ==>
      Appends(b, r, if Negative32(v) then [0xf9, 0xfc, 0x00] else [0xf9, 0x7c, 0x00])
    ensures !(IsNaN32(v) && b.modeNaN == NaN7e00) && !(IsInf32(v) && b.modeInf == InfFloat16) ==>
      if b.modeFloat == Float16 && half.Some? then Appends(b, r, FloatItem(2, half.value))
      else Appends(b, r, FloatItem(4, v))
  {
    if IsNaN32(v) && b.modeNaN == NaN7e00 then AddRawBytes(b, CanonicalNaN)
    else if !IsNaN32(v) && IsInf32(v) && b.modeInf == InfFloat16 then AddRawBytes(b, Infinity(Negative32(v)))
    else if b.modeFloat == Float16 && half.Some? then AddFloat16Bits(b, half.value)
    else AddFloat32Bits(b, v)
  }

  /**
   * Go's `cannotFitFloat32`: `float64(float32(v)) != v`. A NaN never compares
   * equal to its round trip, so no NaN fits, whatever the narrowing gives.
   */
  predicate CannotFitFloat32(v: uint64, narrow: Option<uint32>)
    ensures IsNaN64(v) ==> CannotFitFloat32(v, narrow)
    ensures !IsNaN64(v) ==> (CannotFitFloat32(v, narrow) <==> narrow.None?)
  {
    IsNaN64(v) || narrow.None?
  }

  function AddFloat64(b: Builder, v: uint64, narrow: Option<uint32>, half: Option<uint16>): (r: Builder)
    ensures IsNaN64(v) && b.modeNaN == NaN7e00 ==> Appends(b, r, [0xf9, 0x7e, 0x00])
    ensures IsInf64(v) && b.modeInf == InfFloat16 ==>
      Appends(b, r, if Negative64(v) then [0xf9, 0xfc, 0x00] else [0xf9, 0x7c, 0x00])
    ensures IsNaN64(v) && b.modeNaN == NaNNone ==> Appends(b, r, FloatItem(8, v))
    ensures !IsNaN64(v) && !(IsInf64(v) && b.modeInf == InfFloat16) && (b.modeFloat == FloatNone || narrow.None?) ==>
      Appends(b, r, FloatItem(8, v))
  {
    if IsNaN64(v) && b.modeNaN == NaN7e00 then AddRawBytes(b, CanonicalNaN)
    else if !IsNaN64(v) && IsInf64(v) && b.modeInf == InfFloat16 then AddRawBytes(b, Infinity(Negative64(v)))
    else if b.modeFloat == FloatNone || CannotFitFloat32(v, narrow) then AddFloat64Bits(b, v)
    else AddFloat32(b, narrow.value, half)
  }

  /** A float64 that narrows losslessly is written exactly as the float32 path writes its narrowing. */
  lemma Float64Narrows(b: Builder, v: uint64, narrow: uint32, half: Option<uint16>)
    requires !IsNaN64(v) && !(IsInf64(v) && b.modeInf == InfFloat16) && b.modeFloat == Float16
    ensures AddFloat64(b, v, Some(narrow), half) == AddFloat32(b, narrow, half)
  {
  }

  /** The fixed NaN and infinity encodings are half-precision items with the IEEE binary16 patterns. */
  lemma SpecialsAreHalfFloats()
    ensures CanonicalNaN == FloatItem(2, 0x7e00)
    ensures PositiveInfinity == FloatItem(2, 0x7c00)
    ensures NegativeInfinity == FloatItem(2, 0xfc00)
  {
    HalfItem(0x7e, 0x7e00);
    HalfItem(0x7c, 0x7c00);
    HalfItem(0xfc, 0xfc00);
  }

  lemma HalfItem(hi: byte, bits: uint16)
    requires bits == hi * 0x100
    ensures FloatItem(2, bits) == [0xf9, hi, 0x00]
  {
    BigEndian2(bits);
    HeaderSplits(TypePrimitives, 25);
  }
}
