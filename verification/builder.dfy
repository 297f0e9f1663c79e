/**
 * The Builder: an output buffer with a sticky error, the scratch state of the
 * canonical map sorter, and the encoding policies. Every operation is a pure
 * function from the old builder to the new one. This module holds the
 * append discipline and the integer, simple-value, string, tag and array
 * emitters; floats, unknown lengths and maps live in their own modules.
 */
module Encoder {
  import opened Cbor
  import opened Wrappers
  import opened BigEndian
  import opened Header

  // Policies; the first constructor of each is Go's zero value.
  datatype ModeNaN = NaN7e00 | NaNNone
  datatype ModeInf = InfFloat16 | InfNone
  datatype ModeFloat = Float16 | FloatNone
  datatype ModeSort = SortLengthFirst | SortBytewiseLexical | SortNone

  /** An error value handed to `SetError` or raised by the encoder. */
  datatype Error = Error(message: string)

  /** Where a finished map entry starts and how many of its bytes are the key. */
  datatype MapItem = MapItem(offset: nat, keyLength: nat)

  datatype Builder = Builder(
    modeNaN: ModeNaN,
    modeInf: ModeInf,
    modeFloat: ModeFloat,
    modeSort: ModeSort,
    err: Option<Error>,
    result: seq<byte>,
    offsets: seq<MapItem>,   // descriptor slots; the first mapSize are live
    tmp: seq<byte>,          // scratch space for moving one map entry
    mapSize: nat)

  /** A builder writing after `buffer`, with every policy at its zero value. */
  function NewBuilder(buffer: seq<byte>): (b: Builder)
    ensures b.result == buffer && b.err == None && b.mapSize == 0
    ensures b.modeNaN == NaN7e00 && b.modeInf == InfFloat16
    ensures b.modeFloat == Float16 && b.modeSort == SortLengthFirst
  {
    Builder(NaN7e00, InfFloat16, Float16, SortLengthFirst, None, buffer, [], [], 0)
  }

  /**
   * r is what b becomes when `bytes` are appended under the sticky-error rule:
   * nothing changes once an error is set, and otherwise only the buffer grows.
   */
  ghost predicate Appends(b: Builder, r: Builder, bytes: seq<byte>) {
    if b.err.Some? then r == b else r == b.(result := b.result + bytes)
  }

  lemma AppendsThen(b: Builder, m: Builder, r: Builder, x: seq<byte>, y: seq<byte>)
    requires Appends(b, m, x) && Appends(m, r, y)
    ensures Appends(b, r, x + y)
  {
    if b.err.None? {
      assert b.result + x + y == b.result + (x + y);
    }
  }

  /** r encodes under the same NaN, infinity, float-shortening and sorting policies as b. */
  predicate SamePolicies(b: Builder, r: Builder) {
    && r.modeNaN == b.modeNaN
    && r.modeInf == b.modeInf
    && r.modeFloat == b.modeFloat
    && r.modeSort == b.modeSort
  }

  /** Replaces the stored error; once one is set, later writes are ignored. */
  function SetError(b: Builder, err: Option<Error>): (r: Builder)
    ensures r.err == err && r.result == b.result
    ensures SamePolicies(b, r)
    ensures r.mapSize == b.mapSize && r.offsets == b.offsets && r.tmp == b.tmp
  {
    b.(err := err)
  }

  /** The encoded bytes, or the stored error and no bytes. */
  function Bytes(b: Builder): (r: Result<seq<byte>, Error>)
    ensures r.Failure? <==> b.err.Some?
    ensures r.Failure? ==> r.error == b.err.value
    ensures r.Success? ==> r.value == b.result
  {
    if b.err.Some? then Failure(b.err.value) else Success(b.result)
  }

  /** The single write primitive: a no-op once an error is set. */
  function Add(b: Builder, bytes: seq<byte>): (r: Builder)
    ensures Appends(b, r, bytes)
  {
    if b.err.Some? then b else b.(result := b.result + bytes)
  }

  /** Copies pre-encoded CBOR through untouched. */
  function AddRawBytes(b: Builder, v: seq<byte>): (r: Builder)
    ensures Appends(b, r, v)
  {
    Add(b, v)
  }

  function AddBool(b: Builder, v: bool): (r: Builder)
    ensures Appends(b, r, [if v then Or(TypePrimitives, 21) else Or(TypePrimitives, 20)])
  {
    PrimitiveBytes();
    AddRawBytes(b, [if v then True else False])
  }

  function AddNil(b: Builder): (r: Builder)
    ensures Appends(b, r, [Or(TypePrimitives, 22)])
  {
    PrimitiveBytes();
    AddRawBytes(b, [Nil])
  }

  // The header writers. Each picks the shortest argument for its value; the
  // narrower ones are reused by the wider ones exactly as in the source.

  function AddHead8(b: Builder, t: byte, v: uint8): (r: Builder)
    ensures Appends(b, r, Head(t, v))
  {
    if v <= 23 then AddRawBytes(b, [Or(t, v)])
    else
      HeadLiteral1(t, v);
      AddRawBytes(b, [Or(t, 24), v])
  }

  function AddHead16(b: Builder, t: byte, v: uint16): (r: Builder)
    ensures Appends(b, r, Head(t, v))
  {
    if v <= 0xff then AddHead8(b, t, v)
    else
      HeadLiteral2(t, v);
      AddRawBytes(b, [Or(t, 25), ByteOf(v / 0x100), ByteOf(v)])
  }

  function AddHead32(b: Builder, t: byte, v: uint32): (r: Builder)
    ensures Appends(b, r, Head(t, v))
  {
    if v <= 0xff then AddHead8(b, t, v)
    else if v <= 0xffff then AddHead16(b, t, v)
    else
      HeadLiteral4(t, v);
      AddRawBytes(b, [Or(t, 26), ByteOf(v / 0x100_0000), ByteOf(v / 0x1_0000), ByteOf(v / 0x100), ByteOf(v)])
  }

  function AddHead64(b: Builder, t: byte, v: uint64): (r: Builder)
    ensures Appends(b, r, Head(t, v))
  {
    if v <= 0xff then AddHead8(b, t, v)
    else if v <= 0xffff then AddHead16(b, t, v)
    else if v <= 0xffff_ffff then AddHead32(b, t, v)
    else
      HeadLiteral8(t, v);
      AddRawBytes(b, [Or(t, 27),
        ByteOf(v / 0x100_0000_0000_0000), ByteOf(v / 0x1_0000_0000_0000),
        ByteOf(v / 0x100_0000_0000), ByteOf(v / 0x1_0000_0000),
        ByteOf(v / 0x100_0000), ByteOf(v / 0x1_0000), ByteOf(v / 0x100), ByteOf(v)])
  }

  /**
   * The header bytes depend only on the value, never on the declared width:
   * every writer whose type holds v appends the same bytes.
   */
  lemma HeadWidthIndependent(b: Builder, t: byte, v: uint64)
    ensures v <= 0xff ==> AddHead8(b, t, v) == AddHead16(b, t, v)
    ensures v <= 0xffff ==> AddHead16(b, t, v) == AddHead32(b, t, v)
    ensures v <= 0xffff_ffff ==> AddHead32(b, t, v) == AddHead64(b, t, v)
  {
  }

  function AddUint8(b: Builder, v: uint8): (r: Builder)
    ensures Appends(b, r, Head(TypePositiveInt, v))
  {
    AddHead8(b, TypePositiveInt, v)
  }

  function AddUint16(b: Builder, v: uint16): (r: Builder)
    ensures Appends(b, r, Head(TypePositiveInt, v))
  {
    AddHead16(b, TypePositiveInt, v)
  }

  function AddUint32(b: Builder, v: uint32): (r: Builder)
    ensures Appends(b, r, Head(TypePositiveInt, v))
  {
    AddHead32(b, TypePositiveInt, v)
  }

  function AddUint64(b: Builder, v: uint64): (r: Builder)
    ensures Appends(b, r, Head(TypePositiveInt, v))
  {
    AddHead64(b, TypePositiveInt, v)
  }

  /** Go's `uint` is taken to be 64 bits wide. */
  function AddUint(b: Builder, v: uint64): (r: Builder)
    ensures Appends(b, r, Head(TypePositiveInt, v))
  {
    AddHead64(b, TypePositiveInt, v)
  }

  // Go's fixed-width signed arithmetic wraps around; `half` is 2^(bits-1).

  /** The two's-complement wrap of x into a signed integer of 2*half values. */
  function Wrap(x: int, half: nat): int
    requires half > 0
  {
    ((x + half) % (2 * half)) - half
  }

  /** Go's conversion of a signed integer to the unsigned type of the same width. */
  function Unsigned(x: int, half: nat): nat
    requires half > 0
  {
    x % (2 * half)
  }

  /**
   * Go's `v*(-1)-1` on a negative v of a signed type with 2*half values,
   * converted to unsigned. Despite the wrap-around it is the exact -1-v.
   */
  function NegatedArgument(v: int, half: nat): (r: nat)
    requires half > 0
    ensures r < 2 * half
    ensures 0 <= v + half && v < 0 ==> r == -1 - v
  {
    var r := Unsigned(Wrap(Wrap(v * -1, half) - 1, half), half);
    if 0 <= v + half && v < 0 then NegationWraps(v, half); r else r
  }

  function AddInt8(b: Builder, v: int8): (r: Builder)
    ensures Appends(b, r, SignedHead(v))
  {
    if v >= 0 then AddUint8(b, v)
    else AddHead8(b, TypeNegativeInt, NegatedArgument(v, 0x80))
  }

  function AddInt16(b: Builder, v: int16): (r: Builder)
    ensures Appends(b, r, SignedHead(v))
  {
    if v >= 0 then AddUint16(b, v)
    else AddHead16(b, TypeNegativeInt, NegatedArgument(v, 0x8000))
  }

  function AddInt32(b: Builder, v: int32): (r: Builder)
    ensures Appends(b, r, SignedHead(v))
  {
    if v >= 0 then AddUint32(b, v)
    else AddHead32(b, TypeNegativeInt, NegatedArgument(v, 0x8000_0000))
  }

  function AddInt64(b: Builder, v: int64): (r: Builder)
    ensures Appends(b, r, SignedHead(v))
  {
    if v >= 0 then AddUint64(b, v)
    else AddHead64(b, TypeNegativeInt, NegatedArgument(v, 0x8000_0000_0000_0000))
  }

  /** Go's `int` is taken to be 64 bits wide. */
  function AddInt(b: Builder, v: int64): (r: Builder)
    ensures Appends(b, r, SignedHead(v))
  {
    AddInt64(b, v)
  }

  /**
   * The wrapped negation `v*(-1)-1` is exact for every negative value of a
   * signed type with 2*half values, including the minimum -half, where
   * `v*(-1)` wraps back to v itself.
   */
  lemma NegationWraps(v: int, half: nat)
    requires half > 0 && 0 <= v + half && v < 0
    ensures Unsigned(Wrap(Wrap(v * -1, half) - 1, half), half) == -1 - v
  {
    var m := 2 * half;
    if v + half == 0 {
      ModSelf(m);
      assert Wrap(v * -1, half) == v;
      ModMinusOne(m);
      assert Wrap(v - 1, half) == half - 1;
    } else {
      ModInRange(-v + half, m);
      assert Wrap(v * -1, half) == -v;
      ModInRange(-v - 1 + half, m);
    }
    ModInRange(-1 - v, m);
  }

  lemma ModInRange(x: int, m: int)
    requires 0 <= x < m
    ensures x % m == x
  {
  }

  lemma ModSelf(m: int)
    requires 0 < m
    ensures m % m == 0
  {
  }

  lemma ModMinusOne(m: int)
    requires 0 < m
    ensures (-1) % m == m - 1
  {
  }

  function AddTag(b: Builder, number: uint64): (r: Builder)
    ensures Appends(b, r, Head(TypeTag, number))
  {
    AddHead64(b, TypeTag, number)
  }

  /** The array header; the elements' encoder is modelled as the bytes it appends. */
  function AddArray(b: Builder, n: uint64, elements: seq<byte>): (r: Builder)
    ensures Appends(b, r, Head(TypeArray, n) + elements)
  {
    var h := AddHead64(b, TypeArray, n);
    var r := AddRawBytes(h, elements);
    AppendsThen(b, h, r, Head(TypeArray, n), elements);
    r
  }

  /** A byte string; `None` is Go's nil slice and encodes as null, unlike an empty one. */
  function AddBytes(b: Builder, v: Option<seq<byte>>): (r: Builder)
    requires v.Some? ==> |v.value| < 0x1_0000_0000_0000_0000
    ensures v.None? ==> Appends(b, r, [Nil])
    ensures v.Some? ==> Appends(b, r, Head(TypeByteString, |v.value|) + v.value)
  {
    if v.None? then AddRawBytes(b, [Nil])
    else if |v.value| == 0 then
      assert Head(TypeByteString, 0) + [] == [TypeByteString];
      AddRawBytes(b, [TypeByteString])
    else
      var h := AddHead64(b, TypeByteString, |v.value|);
      var r := AddRawBytes(h, v.value);
      AppendsThen(b, h, r, Head(TypeByteString, |v.value|), v.value);
      r
  }

  /** A text string, given as its UTF-8 bytes (a Go string's bytes). */
  function AddString(b: Builder, v: seq<byte>): (r: Builder)
    requires |v| < 0x1_0000_0000_0000_0000
    ensures Appends(b, r, Head(TypeTextString, |v|) + v)
  {
    if |v| == 0 then
      assert Head(TypeTextString, 0) + [] == [TypeTextString];
      AddRawBytes(b, [TypeTextString])
    else
      var h := AddHead64(b, TypeTextString, |v|);
      var r := AddRawBytes(h, v);
      AppendsThen(b, h, r, Head(TypeTextString, |v|), v);
      r
  }

  /** Nil and empty byte strings, and the empty text string, are three different encodings. */
  lemma NilAndEmptyDiffer(b: Builder)
    requires b.err.None?
    ensures AddBytes(b, None).result == b.result + [0xf6]
    ensures AddBytes(b, Some([])).result == b.result + [0x40]
    ensures AddString(b, []).result == b.result + [0x60]
  {
    assert Head(TypeByteString, 0) + [] == [0x40];
    assert Head(TypeTextString, 0) + [] == [0x60];
  }
}
