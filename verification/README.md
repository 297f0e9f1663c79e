# CBOR Builder encoder, modelled in Dafny

The model covers the encoding engine of a Go CBOR library (RFC 8949): the
`Builder` type in `builder.go` and the major-type constants in `cbor.go`.

A `Builder` is an append-only output buffer with a **sticky error**. Once an
error is stored, every later write is ignored. `Bytes` then returns that error
and no bytes.

On top of the single write primitive `add`, the builder emits:
- data-item headers: a major type plus the shortest 0/1/2/4/8-byte big-endian argument;
- signed and unsigned integers of every width;
- booleans, nil, tags and arrays;
- byte and text strings, where a nil byte slice encodes as null and an empty one as `0x40`;
- floats, under the NaN, infinity and float16-shortening policies;
- byte strings whose length is written after the content (`addUnknown`);
- maps whose entries are kept sorted in place (length-first or bytewise-lexical).

Map sorting works as follows. `addMapItem` appends a key and a value and records a
descriptor `(offset, keyLength)`. `sort` then binary-searches the earlier keys for
the new key's place. It moves the new entry's bytes there through a scratch
buffer, and shifts the later descriptors.

How the model is built:
- The model is functional. A `Builder` is an immutable record, and every operation
  returns the next builder.
- A continuation is modelled as the bytes it appends. Examples are the content of
  `AddArray`, the payload of `AddBytesUnknownLength`, and the key and value of an
  `addMapItem`.
- Go's fixed-width arithmetic is written out explicitly: wrap-around (`Wrap`),
  signed-to-unsigned conversion (`Unsigned`), `byte(x)` truncation (`ByteOf`), and
  `|` (`Or`).
- Go's `copy` is `Slices.CopyInto`, and `binary.BigEndian.PutUintN` is
  `Slices.PutBigEndian`.

The model is proved against reference definitions:
- `Header.Head` is the shortest header. `Header.DecodeHead` is a decoder that reads
  it back.
- `MapEntries.Flatten` is a map body laid out from abstract `Entry` values, and
  `MapEntries.InsertSorted` is reference insertion into a sorted sequence.
- `MapSort.Represents` ties the bytes and descriptors of a builder to such an entry
  sequence.

Modules, by file:
- `cbor.dfy` (`Cbor`): constants and bitwise OR.
- `wrappers.dfy` (`Wrappers`): `Option` and `Result`.
- `bigendian.dfy` (`BigEndian`).
- `header.dfy` (`Header`).
- `builder.dfy` (`Encoder`).
- `floats.dfy` (`Floats`).
- `slices.dfy` (`Slices`).
- `unknown.dfy` (`UnknownLength`).
- `keyorder.dfy` (`KeyOrder`).
- `search.dfy` (`BinarySearch`).
- `mapentries.dfy` (`MapEntries`).
- `maps.dfy` (`MapSort`).
- `vectors.dfy` (`Vectors`): encodings from Appendix A of RFC 8949, which the library's own test table also lists.

## Model

| member | source | states |
|---|---|---|
| Cbor.MajorTypesInOrder | cbor.go:3-12 | the eight major-type constants are 32*k for major type k, so each carries its type number in the top three bits |
| Cbor.MajorTypesDistinct | cbor.go:4-11 | no two major types share a header prefix |
| Cbor.HeaderSplits | builder.go:622-627 | OR-ing a major type t with v < 32 gives t + v, and the major type and the low five bits are both recoverable from the byte |
| Cbor.PrimitiveBytes | builder.go:15-25 | false/true/null are major type 7 with simple values 20/21/22; the NaN and infinity encodings start with the half-float marker 0xf9 |
| Header.ArgumentSize | builder.go:648-661 | the argument width is one of 0/1/2/4/8; it is 0 exactly for values up to 23, and otherwise the chosen width holds the value |
| Header.HeadShape | builder.go:622-662 | the header is 1, 2, 3, 5 or 9 bytes long exactly on the value ranges 0..23, 24..255, 256..65535, 65536..2^32-1 and above |
| Header.HeadIsShortest | builder.go:648-661 | no argument width that could hold the value gives a shorter header than the one chosen |
| Header.DecodeHeadRoundTrip | builder.go:622-662 | decoding a header, whatever follows it, gives back the major type and the value and consumes exactly the header |
| Header.HeadInjective | builder.go:622-662 | two headers are equal only when their major types and values are |
| Header.HeadLiteral1 | builder.go:626 | the source's 2-byte list (marker 24, then the value) is the shortest header for values 24..255 |
| Header.HeadLiteral2 | builder.go:634 | the source's shifted 2-byte list (marker 25, high byte, low byte) is the shortest header for values 256..65535 |
| Header.HeadLiteral4 | builder.go:644 | the source's shifted 4-byte list (marker 26) is the shortest header for values 65536..2^32-1 |
| Header.HeadLiteral8 | builder.go:656-660 | the source's shifted 8-byte list (marker 27) is the shortest header for values of 2^32 and above |
| BigEndian.FromToBigEndian | builder.go:656-660 | reading back an n-byte big-endian write gives the original value |
| BigEndian.ToFromBigEndian | builder.go:656-660 | writing back the value a byte string denotes gives the same byte string |
| BigEndian.ToBigEndianInjective | builder.go:656-660 | different values below 256^n have different n-byte big-endian forms |
| Encoder.NewBuilder | builder.go:113-117 | a new builder writes after the given buffer, with no error, no map items, and every policy at Go's zero value |
| Encoder.SetError | builder.go:119-123 | the given error is stored; the bytes, the map state (item count, descriptors, scratch buffer) and every policy are untouched |
| Encoder.Bytes | builder.go:125-132 | the result is a failure exactly when an error is stored, and then carries that error; otherwise it is the written bytes |
| Encoder.Add | builder.go:138-146 | with no error, exactly the given bytes are appended and nothing else changes; once an error is set, nothing changes |
| Encoder.AppendsThen | builder.go:138-146 | two sticky appends in a row are one sticky append of the concatenation |
| Encoder.AddRawBytes | builder.go:610-612 | pre-encoded bytes pass through unchanged under the sticky-error rule |
| Encoder.AddBool | builder.go:614-620 | appends the single byte of major type 7 with simple value 21 for true and 20 for false |
| Encoder.AddNil | builder.go:830-832 | appends the single byte of major type 7 with simple value 22 |
| Encoder.AddHead8 | builder.go:622-628 | appends the shortest header for the 8-bit value under the major type |
| Encoder.AddHead16 | builder.go:630-636 | appends the shortest header for the 16-bit value, narrowing to the 8-bit writer when it fits |
| Encoder.AddHead32 | builder.go:638-646 | appends the shortest header for the 32-bit value, narrowing when it fits |
| Encoder.AddHead64 | builder.go:648-662 | appends the shortest header for the 64-bit value, narrowing when it fits |
| Encoder.HeadWidthIndependent | builder.go:622-662 | for any value the narrower writer's type can hold, the 8-, 16-, 32- and 64-bit writers append the same bytes, so the header depends only on the value |
| Encoder.AddUint8 | builder.go:700-702 | appends the major-type-0 shortest header of v |
| Encoder.AddUint16 | builder.go:704-706 | appends the major-type-0 shortest header of v |
| Encoder.AddUint32 | builder.go:708-710 | appends the major-type-0 shortest header of v |
| Encoder.AddUint64 | builder.go:712-714 | appends the major-type-0 shortest header of v |
| Encoder.AddUint | builder.go:716-718 | appends the major-type-0 shortest header of v |
| Encoder.AddInt8 | builder.go:664-670 | a non-negative v is encoded as unsigned; a negative v is major type 1 with argument -1-v, including the minimum int8 |
| Encoder.AddInt16 | builder.go:672-678 | as for AddInt8, at 16 bits |
| Encoder.AddInt32 | builder.go:680-686 | as for AddInt8, at 32 bits |
| Encoder.AddInt64 | builder.go:688-694 | as for AddInt8, at 64 bits |
| Encoder.AddInt | builder.go:696-698 | as for AddInt64 |
| Encoder.NegatedArgument | builder.go:668 | the argument computed for a negative v stays below 2^bits and is exactly -1-v for every negative v of the type, including the minimum |
| Encoder.NegationWraps | builder.go:668 | the wrapped `v*(-1)-1`, converted to unsigned, equals -1-v for every negative v of the type, including the minimum, where `v*(-1)` overflows back to v |
| Encoder.AddTag | builder.go:850-852 | appends the major-type-6 shortest header of the tag number |
| Encoder.AddArray | builder.go:834-837 | appends the major-type-4 header of the element count, followed by the elements' bytes |
| Encoder.AddBytes | builder.go:804-815 | a nil slice appends null; any other slice appends the major-type-2 header of its length, followed by its bytes |
| Encoder.AddString | builder.go:821-828 | appends the major-type-3 header of the UTF-8 length, followed by the bytes |
| Encoder.NilAndEmptyDiffer | builder.go:804-828 | a nil byte slice, an empty byte slice and an empty string encode as the three different bytes f6, 40 and 60 |
| Floats.FloatItemDecodes | builder.go:720-737 | a float item decodes as major type 7 carrying exactly the bit pattern, with the width marker 25/26/27 |
| Floats.AddFloat16Bits | builder.go:720-723 | appends the half-precision item of the 16-bit pattern |
| Floats.AddFloat32Bits | builder.go:725-728 | appends the single-precision item of the 32-bit pattern |
| Floats.AddFloat64Bits | builder.go:730-737 | appends the double-precision item of the 64-bit pattern |
| Floats.AddFloat32 | builder.go:739-774 | a NaN under the 7e00 policy gives f9 7e 00; an infinity under the float16 policy gives the signed half infinity; otherwise the float16 item when shortening is on and the value fits, else the float32 item |
| Floats.AddFloat64 | builder.go:776-797 | NaN and infinity as for AddFloat32; a NaN kept as is, and any value when shortening is off, is written as the float64 item |
| Floats.CannotFitFloat32 | builder.go:799-802 | no NaN fits a float32, because NaN never equals its own narrowing; any other value fits exactly when its narrowing is lossless |
| Floats.Float64Narrows | builder.go:792-797 | with shortening on, a float64 that survives narrowing to float32 is encoded exactly as that float32 is |
| Floats.SpecialsAreHalfFloats | builder.go:21-25 | the fixed NaN and infinity encodings are half-float items carrying the IEEE binary16 patterns 7e00, 7c00 and fc00 |
| Slices.CopyInto | builder.go:886-888 | Go's copy never changes the destination's length |
| Slices.PutBigEndian | builder.go:165-175 | after the store, the n bytes at `at` read back as v in big-endian order, and every byte outside them is unchanged |
| Slices.CopyIntoAt | builder.go:887-888 | Go's copy overwrites min(len(dst)-at, len(src)) bytes from at with src's bytes and keeps every other byte of dst |
| UnknownLength.AddUnknown | builder.go:148-178 | reserving a header byte, writing the payload and then patching the header in place gives exactly the shortest header of the payload's length followed by the payload |
| UnknownLength.PatchInline | builder.go:153-154 | a payload of at most 23 bytes gets its length in the reserved byte |
| UnknownLength.PatchWide | builder.go:155-176 | a longer payload gets the marker and the w-byte length in place of the reserved byte, with the payload moved w bytes right |
| UnknownLength.Rewrite | builder.go:158-175 | after the w zero bytes are appended, the copy and the header writes leave the prefix, the shortest header and the payload |
| UnknownLength.Shift | builder.go:158 | the overlapping copy moves the payload w bytes right and leaves the payload's first w bytes in the gap |
| UnknownLength.WriteHeader | builder.go:159-160 | writing the marker and the length over the reserved byte and the gap leaves exactly the shortest header before the payload |
| UnknownLength.PutArgument | builder.go:160-175 | the one-byte store and the `binary.BigEndian.PutUintN` stores both write the w-byte big-endian length after the marker |
| UnknownLength.AddBytesUnknownLength | builder.go:817-819 | a byte string whose length is written afterwards is byte-for-byte the byte string AddBytes writes |
| UnknownLength.AddUnknownGrowth | builder.go:148-178 | the buffer grows by the payload, the reserved byte and exactly the argument bytes the length needs |
| KeyOrder.Compare | builder.go:878 | `bytes.Compare` returns -1, 0 or 1, and 0 exactly when the keys are equal |
| KeyOrder.CompareIsLexical | builder.go:878 | `bytes.Compare` is negative exactly when a is a proper prefix of b or is smaller at the first differing byte |
| KeyOrder.CompareAntisymmetric | builder.go:878 | swapping the arguments negates the comparison |
| KeyOrder.CompareTransitive | builder.go:878 | the byte order is transitive |
| KeyOrder.KeyLessEqReflexive | builder.go:873-879 | every key sorts at or before itself under either mode |
| KeyOrder.KeyLessEqTotal | builder.go:873-879 | any two keys are ordered one way or the other |
| KeyOrder.KeyLessEqAntisymmetric | builder.go:873-879 | keys ordered both ways are equal, so each mode is a total order |
| KeyOrder.KeyLessEqTransitive | builder.go:873-879 | the sort predicate is transitive under both modes |
| KeyOrder.OrdersDiffer | builder.go:875-878 | the length-first and bytewise orders disagree on the encoded keys 100 and -1 |
| BinarySearch.Search | builder.go:873 | for any predicate, `sort.Search` returns an index in 0..n at which the predicate switches from false to true |
| BinarySearch.SearchFindsFirst | builder.go:873 | for a monotone predicate, the search result is the first index where the predicate holds, and it holds from there on |
| MapEntries.FlattenAppend | builder.go:902-911 | laying out two entry runs one after the other is laying out their concatenation |
| MapEntries.InsertSortedSplits | builder.go:880-898 | the reference insertion places the entry before the first key it sorts at or before, and keeps everything else in order |
| MapEntries.InsertKeepsSorted | builder.go:873-898 | inserting into a sorted map body keeps it sorted |
| MapEntries.Insert | builder.go:912-914 | with sorting off the new entry goes last after the old entries; otherwise it goes just before the first key it sorts at or before, with the earlier entries before it and the later ones after it |
| MapEntries.InsertPermutes | builder.go:880-898 | inserting adds exactly the new entry and loses none |
| MapEntries.OrderedSortsAndPermutes | builder.go:902-915 | the entries of a map built item by item are a permutation of the items; they are sorted when a sort mode is set and in item order when it is not |
| MapSort.AddMap | builder.go:841-848 | appends the map header of the length (wrapped to unsigned as Go converts it), resets the item count, and grows the descriptor table to the length while keeping the old descriptors; the error, the scratch buffer and every policy are kept |
| MapSort.Sort | builder.go:859-900 | sorting keeps the error, the item count, the descriptor count and the buffer length; nothing changes when the new key already sorts last, and otherwise the bytes before the insertion offset stay as they were; every policy is kept |
| MapSort.InsertionIndex | builder.go:872-879 | the search over the earlier keys lands on a switch point of "the new key sorts at or before key i" |
| MapSort.KeyOf | builder.go:860-863 | the key of an in-range item is a prefix of the bytes from its offset, keyLength bytes long |
| MapSort.SearchKeys | builder.go:873-879 | the binary search over the keys returns a switch point of the sort predicate |
| MapSort.MoveLast | builder.go:880-898 | the last entry's bytes move to item idx's offset and the bytes from there shift right behind them; descriptors above idx move up one slot and right by the entry's length, and slot idx gets the moved item; the error and every policy are kept |
| MapSort.MovedItems | builder.go:889-898 | the descriptors after the move: slots idx+1..last take their predecessor shifted right, and slot idx takes the last item's key length at idx's old offset |
| MapSort.ShiftDescriptors | builder.go:890-896 | the descriptor loop gives each slot above idx its predecessor's descriptor, shifted right by delta, and leaves the other slots alone |
| MapSort.Stage | builder.go:881-886 | the scratch buffer grows by exactly the shortfall when it is shorter than the last entry and otherwise keeps its length; it starts with the last entry's bytes, and any bytes past them are kept |
| MapSort.MoveRun | builder.go:887-888 | the two overlapping copies rotate the last entry from the end to position to |
| MapSort.AppendItem | builder.go:903-911 | the key then the value are appended, the next descriptor records their offset and key length (0 once an error is set), and no other descriptor, the scratch buffer or any policy changes |
| MapSort.AddMapItem | builder.go:902-915 | one item more; the buffer grows by the key and value unless an error is set, in which case it is unchanged; the error and every policy are kept |
| MapSort.Contributed | builder.go:903-906 | the entry an item call contributes is its key and value, or empty bytes once an error is set |
| MapSort.SearchFindsInsertionPoint | builder.go:872-879 | when the earlier keys are sorted, the binary search finds the reference insertion point of the new key |
| MapSort.SortInserts | builder.go:859-900 | when the earlier entries are sorted, `sort` leaves the map body equal to the reference insertion of the new entry, with matching descriptors, and leaves the bytes before the map alone |
| MapSort.MoveLastRepresents | builder.go:880-898 | moving the last entry to idx yields the body with the entry inserted at idx, and the descriptors describe it |
| MapSort.AddMapItemInserts | builder.go:902-915 | one item call on a map holding entries es leaves it holding es with the new entry appended (no sorting) or inserted in key order |
| MapSort.AddMapStartsEmpty | builder.go:841-848 | right after AddMap, the map body is empty and begins just after the header |
| MapSort.EncodeMap | builder.go:841-915 | AddMap followed by one item call per entry leaves the header, then the entries in item order or insertion-sorted; once an error is set, nothing is written; the error and every policy are kept |
| MapSort.EncodeMapBytes | builder.go:841-915 | a map written without error is the header followed by its entries' bytes in an order that is a sorted permutation of the items (or the item order with sorting off) |
| Vectors.SmallInteger | builder_test.go:58-61 | 0 and 23 encode as 00 and 17 |
| Vectors.OneByteInteger | builder_test.go:62 | 24 encodes as 18 18 |
| Vectors.TwoByteInteger | builder_test.go:67 | 1000 encodes as 19 03 e8 |
| Vectors.FourByteInteger | builder_test.go:70 | 1000000 encodes as 1a 00 0f 42 40 |
| Vectors.MinusOne | builder_test.go:75 | -1 encodes as 20 |
| Vectors.MinusThousand | builder_test.go:82 | -1000 encodes as 39 03 e7 |
| Vectors.StringsAndArrays | builder_test.go:87-117 | "" encodes as 60, the bytes 01 02 03 04 as 44 01 02 03 04, and the array [1, 2, 3] as 83 01 02 03 |
| Vectors.SortedMap | builder_test.go:197-209 | the map {3: 4, 1: 2}, written in that order with length-first sorting, encodes as a2 01 02 03 04 |

## Left out

- Marshal and the reflection-driven encoders (`builder.go:91` onwards up to `AddValue`) are not part of this model. They drive the builder from Go values and are outside its core.
- `AddValue` is left out: it calls a user-supplied `MarshalCBORValue`, which is foreign code. Its effect on the builder is an append followed by `SetError`, both of which are modelled.
- Float conversions come from `math` and the `float16` package. The precision test, `Fromfloat32` and the float64-to-float32 narrowing are taken as parameters (`half`, `narrow`). The float values are modelled by their IEEE bit patterns.
- Floats.AddFloat64: the contract does not spell out the branch where shortening is on and the value narrows losslessly to float32. `Floats.Float64Narrows` states that branch: it is the float32 path applied to the narrowed value. Every other branch, including a value that does not fit float32, is stated by the contract itself.
- `add`'s length-overflow check (`builder.go:142-144`) is not modelled. Sequences are unbounded, and the check cannot fire on real memory sizes.
- Growing the capacity of `result` and `tmp` is not modelled, and neither is the aliasing between them and the caller's buffer. Values replace slices.
- UnknownLength.AddUnknown requires that no error is set on entry. With an error, the source writes `b.result[offset]` one byte past the end and panics. The payload's continuation is assumed not to set an error.
- MapSort.AddMapItem requires a free descriptor slot (`mapSize < len(offsets)`). The source panics on an out-of-range index exactly when `mapSize >= len(offsets)`. Because AddMap only ever grows `offsets`, a map may take more items than its header announces without a panic, if an earlier map left enough slots; the model allows this too, as long as a slot is free. Its contract states only sizes, the error and the kept policies. The placement of the entry is stated by `MapSort.AddMapItemInserts`.
- MapSort.Sort: the contract states only what is preserved. Where the entry goes, and that the move only permutes whole entries, is stated by `MapSort.SortInserts`.
- Nested maps are not modelled. In the source, a map inside a map value reuses `offsets` and `mapSize`, so an inner map clobbers the outer map's descriptors. The model treats a value as pre-encoded bytes.
- Slices.CopyInto: the contract states only that the length is kept. The byte-by-byte effect of the copy, overlap included, is stated by `Slices.CopyIntoAt`.
- `Len` is `|b.result|` and is written inline where the source calls it.
- Go's `int` and `uint` are taken to be 64 bits wide, so `AddInt` is `AddInt64` and `AddUint` is `AddUint64`.
- A Go `string` is given as its UTF-8 bytes; there is no Unicode handling.
- `sort.Search` is modelled by its published algorithm, the halving loop. The standard library's source is not part of this model.
