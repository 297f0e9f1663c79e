/**
 * Concrete encodings from Appendix A of RFC 8949, as produced by the builder
 * starting from an empty buffer.
 */
module Vectors {
  import opened Cbor
  import opened Wrappers
  import opened Header
  import opened BigEndian
  import opened Encoder
  import opened KeyOrder
  import opened MapEntries
  import opened MapSort

  // Each vector starts from an empty builder with no error set.

  lemma SmallInteger(b: Builder)
    requires b.result == [] && b.err.None?
    ensures AddUint64(b, 0).result == [0x00]
    ensures AddUint64(b, 23).result == [0x17]
  {
  }

  lemma OneByteInteger(b: Builder)
    requires b.result == [] && b.err.None?
    ensures AddUint64(b, 24).result == [0x18, 0x18]
  {
    HeaderSplits(TypePositiveInt, 24);
  }

  lemma TwoByteInteger(b: Builder)
    requires b.result == [] && b.err.None?
    ensures AddUint64(b, 1000).result == [0x19, 0x03, 0xe8]
  {
    HeaderSplits(TypePositiveInt, 25);
    assert ToBigEndian(1000, 2) == [0x03, 0xe8];
  }

  lemma FourByteInteger(b: Builder)
    requires b.result == [] && b.err.None?
    ensures AddUint64(b, 1000000).result == [0x1a, 0x00, 0x0f, 0x42, 0x40]
  {
    HeaderSplits(TypePositiveInt, 26);
    assert ToBigEndian(1000000, 4) == [0x00, 0x0f, 0x42, 0x40];
  }

  lemma MinusOne(b: Builder)
    requires b.result == [] && b.err.None?
    ensures AddInt64(b, -1).result == [0x20]
  {
    HeaderSplits(TypeNegativeInt, 0);
  }

  lemma MinusThousand(b: Builder)
    requires b.result == [] && b.err.None?
    ensures AddInt64(b, -1000).result == [0x39, 0x03, 0xe7]
  {
    HeaderSplits(TypeNegativeInt, 25);
    assert ToBigEndian(999, 2) == [0x03, 0xe7];
  }

  lemma StringsAndArrays(b: Builder)
    requires b.result == [] && b.err.None?
    ensures AddString(b, []).result == [0x60]
    ensures AddBytes(b, Some([1, 2, 3, 4])).result == [0x44, 1, 2, 3, 4]
    ensures AddArray(b, 3, [1, 2, 3]).result == [0x83, 1, 2, 3]
  {
    HeaderSplits(TypeTextString, 0);
    HeaderSplits(TypeByteString, 4);
    HeaderSplits(TypeArray, 3);
  }

  /**
   * {3: 4, 1: 2} written in that order into an empty, error-free builder that
   * sorts length-first (the default) comes out with key 1 first: a2 01 02 03 04.
   */
  lemma SortedMap(b: Builder, items: seq<Entry>)
    requires b.result == [] && b.err.None? && b.modeSort == SortLengthFirst
    requires items == [Entry([3], [4]), Entry([1], [2])]
    ensures EncodeMap(b, 2, items).result == [0xa2, 1, 2, 3, 4]
  {
    SortedMapBytes(b, items);
    EncodeMapIs(b, 2, items, [0xa2, 1, 2, 3, 4]);
  }

  lemma SortedMapBytes(b: Builder, items: seq<Entry>)
    requires b.result == [] && b.modeSort == SortLengthFirst
    requires items == [Entry([3], [4]), Entry([1], [2])]
    ensures b.result + Head(TypeMap, 2) + Flatten(Ordered(b.modeSort, items)) == [0xa2, 1, 2, 3, 4]
  {
    MapHeader();
    SortedBody(items);
  }

  lemma EncodeMapIs(b: Builder, length: int64, items: seq<Entry>, expected: seq<byte>)
    requires |items| <= length && b.err.None?
    requires b.result + Head(TypeMap, length) + Flatten(Ordered(b.modeSort, items)) == expected
    ensures EncodeMap(b, length, items).result == expected
  {
    EncodeMapBytes(b, length, items);
  }

  lemma MapHeader()
    ensures Head(TypeMap, 2) == [0xa2]
  {
    HeaderSplits(TypeMap, 2);
  }

  lemma SortedBody(items: seq<Entry>)
    requires items == [Entry([3], [4]), Entry([1], [2])]
    ensures Flatten(Ordered(SortLengthFirst, items)) == [1, 2, 3, 4]
  {
    var first, second := Entry([3], [4]), Entry([1], [2]);
    assert items[..1] == [first] && items[1] == second;
    assert [first][..0] == [];
    assert Ordered(SortLengthFirst, [first]) == [first];
    assert Compare([1], [3]) == -1;
    assert InsertSorted(SortLengthFirst, [first], second) == [second, first];
    assert Ordered(SortLengthFirst, items) == [second, first];
    assert [Entry([1], [2]), Entry([3], [4])][..1] == [Entry([1], [2])];
  }
}
