/**
 * The unknown-length wrapper: reserve a one-byte header, let the payload be
 * appended, then widen the header in place, shifting the payload right, once
 * its length is known.
 */
module UnknownLength {
  import opened Cbor
  import opened BigEndian
  import opened Header
  import opened Slices
  import opened Encoder
  import opened Wrappers

  /**
   * Encodes `payload` under major type t with its length written afterwards.
   * The payload's encoder is modelled as the bytes it appends; it must not fail.
   */
  function AddUnknown(b: Builder, t: byte, payload: seq<byte>): (r: Builder)
    requires b.err.None?
    requires |payload| < 0x1_0000_0000_0000_0000
    ensures r == b.(result := b.result + Head(t, |payload|) + payload)
  {
    var offset := |b.result|;
    var b1 := AddHead8(b, t, 0);
    var b2 := AddRawBytes(b1, payload);
    assert b2.result == b.result + [Or(t, 0)] + payload;
    assert b2.result[..offset] == b.result && b2.result[offset + 1..] == payload;
    var length := |b2.result| - offset - 1;
    if length <= 23 then PatchInline(b2, offset, t, length)
    else if length <= 0xff then PatchWide(b2, offset, t, length, 1)
    else if length <= 0xffff then PatchWide(b2, offset, t, length, 2)
    else if length <= 0xffff_ffff then PatchWide(b2, offset, t, length, 4)
    else PatchWide(b2, offset, t, length, 8)
  }

  /** A short payload: the reserved byte takes the length as its minor value. */
  function PatchInline(b: Builder, offset: nat, t: byte, length: nat): (r: Builder)
    requires b.err.None? && offset < |b.result| && b.result[offset] == Or(t, 0)
    requires length == |b.result| - offset - 1 && length <= 23
    ensures r == b.(result := b.result[..offset] + Head(t, length) + b.result[offset + 1..])
  {
    b.(result := b.result[offset := Or(t, length)])
  }

  /**
   * A longer payload: append w zero bytes, move the payload w places right,
   * then write the size marker and the w-byte big-endian length.
   */
  function PatchWide(b: Builder, offset: nat, t: byte, length: nat, w: nat): (r: Builder)
    requires b.err.None? && offset < |b.result| && b.result[offset] == Or(t, 0)
    requires length == |b.result| - offset - 1 && length < 0x1_0000_0000_0000_0000
    requires w > 0 && ArgumentSize(length) == w
    ensures r == b.(result := b.result[..offset] + Head(t, length) + b.result[offset + 1..])
  {
    var b3 := AddRawBytes(b, Zeros(w));
    assert b3.result[..offset] == b.result[..offset];
    assert b3.result[offset + 1..offset + 1 + length] == b.result[offset + 1..];
    b3.(result := Rewrite(b3.result, offset, t, length, w))
  }

  /** The in-place part of the widening, on the buffer with the w zero bytes already appended. */
  function Rewrite(grown: seq<byte>, offset: nat, t: byte, length: nat, w: nat): (r: seq<byte>)
    requires |grown| == offset + 1 + length + w && grown[offset] == Or(t, 0)
    requires length < 0x1_0000_0000_0000_0000 && w > 0 && ArgumentSize(length) == w
    requires grown[offset + 1 + length..] == Zeros(w)
    ensures r == grown[..offset] + Head(t, length) + grown[offset + 1..offset + 1 + length]
  {
    var moved := Shift(grown, offset, length, w);
    WriteHeader(moved, offset, t, length, w, grown[..offset], grown[offset + 1..offset + 1 + length])
  }

  /** `copy(b.result[offset+1+w:], b.result[offset+1:])`: the payload moves w places right. */
  function Shift(grown: seq<byte>, offset: nat, length: nat, w: nat): (moved: seq<byte>)
    requires |grown| == offset + 1 + length + w && grown[offset + 1 + length..] == Zeros(w)
    requires w <= length
    ensures var payload := grown[offset + 1..offset + 1 + length];
      moved == grown[..offset] + [grown[offset]] + payload[..w] + payload
  {
    Regrown(grown, offset, length, w);
    var moved := CopyInto(grown, offset + 1 + w, grown[offset + 1..]);
    Widen(grown[..offset], grown[offset], grown[offset + 1..offset + 1 + length], w, moved);
    moved
  }

  /** The header writes: the size marker at offset, then the w-byte length after it. */
  function WriteHeader(moved: seq<byte>, offset: nat, t: byte, length: nat, w: nat,
                       ghost prefix: seq<byte>, ghost payload: seq<byte>): (r: seq<byte>)
    requires length < 0x1_0000_0000_0000_0000 && w > 0 && ArgumentSize(length) == w
    requires |prefix| == offset && |payload| == length
    requires moved == prefix + [Or(t, 0)] + payload[..w] + payload
    ensures r == prefix + Head(t, length) + payload
  {
    var written := PutArgument(moved[offset := Or(t, SizeMarker(w))], offset + 1, length, w);
    HeaderWritten(prefix, payload, t, length, w, moved, written);
    written
  }

  /** The length after the marker: one byte directly, wider ones through `binary.BigEndian`. */
  function PutArgument(marked: seq<byte>, at: nat, length: nat, w: nat): (r: seq<byte>)
    requires w in {1, 2, 4, 8} && length < Pow256(w) && at + w <= |marked|
    ensures r == marked[..at] + ToBigEndian(length, w) + marked[at + w..]
  {
    if w == 1 then
      OneByteLength(length);
      PutOne(marked, at, ByteOf(length));
      marked[at := ByteOf(length)]
    else PutBigEndian(marked, at, length, w)
  }

  lemma PutOne(s: seq<byte>, at: nat, x: byte)
    requires at < |s|
    ensures s[at := x] == s[..at] + [x] + s[at + 1..]
  {
  }

  lemma HeaderWritten(prefix: seq<byte>, payload: seq<byte>, t: byte, length: nat, w: nat,
                      moved: seq<byte>, written: seq<byte>)
    requires length < 0x1_0000_0000_0000_0000 && w > 0 && ArgumentSize(length) == w && |payload| == length
    requires moved == prefix + [Or(t, 0)] + payload[..w] + payload
    requires var m := moved[|prefix| := Or(t, SizeMarker(w))];
      written == m[..|prefix| + 1] + ToBigEndian(length, w) + m[|prefix| + 1 + w..]
    ensures written == prefix + Head(t, length) + payload
  {
    HeadShape(t, length);
    MarkGap(prefix, Or(t, 0), payload[..w], payload, Or(t, SizeMarker(w)));
    FillGap(prefix + [Or(t, SizeMarker(w))], payload[..w], payload, ToBigEndian(length, w));
    Assoc(prefix, [Or(t, SizeMarker(w))], ToBigEndian(length, w));
  }

  lemma Regrown(grown: seq<byte>, offset: nat, length: nat, w: nat)
    requires |grown| == offset + 1 + length + w && grown[offset + 1 + length..] == Zeros(w)
    ensures grown == grown[..offset] + [grown[offset]] + grown[offset + 1..offset + 1 + length] + Zeros(w)
  {
    SplitAt(grown, offset + 1 + length);
    SplitAt(grown[..offset + 1 + length], offset + 1);
    SplitAt(grown[..offset + 1], offset);
    assert grown[..offset + 1 + length][..offset + 1] == grown[..offset + 1];
    assert grown[..offset + 1][..offset] == grown[..offset];
    assert grown[..offset + 1][offset..] == [grown[offset]];
    assert grown[..offset + 1 + length][offset + 1..] == grown[offset + 1..offset + 1 + length];
  }

  /** `AddBytesUnknownLength`: a byte string whose length is written after its content. */
  function AddBytesUnknownLength(b: Builder, payload: seq<byte>): (r: Builder)
    requires b.err.None?
    requires |payload| < 0x1_0000_0000_0000_0000
    ensures r == AddBytes(b, Some(payload))
  {
    AddUnknown(b, TypeByteString, payload)
  }

  /** The deferred header costs exactly the argument bytes on top of the reserved byte. */
  lemma AddUnknownGrowth(b: Builder, t: byte, payload: seq<byte>)
    requires b.err.None?
    requires |payload| < 0x1_0000_0000_0000_0000
    ensures |AddUnknown(b, t, payload).result| == |b.result| + 1 + |payload| + ArgumentSize(|payload|)
  {
    HeadShape(t, |payload|);
  }

  // Sequence facts behind the in-place rewrite.

  /** After w zero bytes are appended, copying the payload w places right leaves its first w bytes in the gap. */
  lemma Widen(prefix: seq<byte>, x: byte, payload: seq<byte>, w: nat, moved: seq<byte>)
    requires w <= |payload|
    requires var grown := prefix + [x] + payload + Zeros(w);
      moved == CopyInto(grown, |prefix| + 1 + w, grown[|prefix| + 1..])
    ensures moved == prefix + [x] + payload[..w] + payload
  {
    var grown := prefix + [x] + payload + Zeros(w);
    var want := prefix + [x] + payload[..w] + payload;
    assert |moved| == |want|;
    forall i | 0 <= i < |moved|
      ensures moved[i] == want[i]
    {
      if i < |prefix| + 1 + w {
        assert moved[..|prefix| + 1 + w] == grown[..|prefix| + 1 + w];
        assert moved[i] == grown[i];
      }
    }
  }

  lemma MarkGap(prefix: seq<byte>, x: byte, gap: seq<byte>, payload: seq<byte>, marker: byte)
    ensures (prefix + [x] + gap + payload)[|prefix| := marker] == prefix + [marker] + gap + payload
  {
  }

  lemma FillGap(head: seq<byte>, gap: seq<byte>, payload: seq<byte>, bytes: seq<byte>)
    requires |bytes| == |gap|
    ensures var m := head + gap + payload;
      m[..|head|] + bytes + m[|head| + |gap|..] == head + bytes + payload
  {
    var m := head + gap + payload;
    assert m[..|head|] == head;
    assert m[|head| + |gap|..] == payload;
  }

  lemma OneByteLength(length: nat)
    requires length < 0x100
    ensures ToBigEndian(length, 1) == [ByteOf(length)]
  {
    assert length / 0x100 == 0;
  }
}
