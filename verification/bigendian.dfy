/**
 * Big-endian byte strings, the layout of every multi-byte argument and float
 * payload (Go's `byte(v>>8)`, `binary.BigEndian.PutUint16` and friends).
 */
module BigEndian {
  import opened Cbor

  function Pow256(n: nat): (p: nat)
    ensures p > 0
  {
    if n == 0 then 1 else 0x100 * Pow256(n - 1)
  }

  /** Go's `byte(x)` conversion: keep the low eight bits. */
  function ByteOf(x: nat): byte {
    x % 0x100
  }

  /** The n-byte big-endian representation of v, most significant byte first. */
  function ToBigEndian(v: nat, n: nat): (s: seq<byte>)
    requires v < Pow256(n)
    ensures |s| == n
  {
    if n == 0 then []
    else
      assert v / 0x100 < Pow256(n - 1);
      ToBigEndian(v / 0x100, n - 1) + [ByteOf(v)]
  }

  /** The number a big-endian byte string denotes. */
  function FromBigEndian(s: seq<byte>): (v: nat)
    ensures v < Pow256(|s|)
  {
    if s == [] then 0
    else
      var high := FromBigEndian(s[..|s| - 1]);
      assert high * 0x100 <= (Pow256(|s| - 1) - 1) * 0x100;
      high * 0x100 + s[|s| - 1]
  }

  /** Reading back what was written gives the original value. */
  lemma {:induction false} FromToBigEndian(v: nat, n: nat)
    requires v < Pow256(n)
    ensures FromBigEndian(ToBigEndian(v, n)) == v
  {
    if n > 0 {
      var s := ToBigEndian(v, n);
      assert s[..n - 1] == ToBigEndian(v / 0x100, n - 1);
      FromToBigEndian(v / 0x100, n - 1);
    }
  }

  /** Writing back what was read gives the original bytes. */
  lemma {:induction false} ToFromBigEndian(s: seq<byte>)
    ensures ToBigEndian(FromBigEndian(s), |s|) == s
  {
    if s != [] {
      var n := |s|;
      var v := FromBigEndian(s);
      var high := FromBigEndian(s[..n - 1]);
      assert v / 0x100 == high && v % 0x100 == s[n - 1];
      ToFromBigEndian(s[..n - 1]);
      assert s == s[..n - 1] + [s[n - 1]];
    }
  }

  /** The big-endian bytes of a value are determined by the value: distinct values differ. */
  lemma ToBigEndianInjective(v: nat, w: nat, n: nat)
    requires v < Pow256(n) && w < Pow256(n)
    requires ToBigEndian(v, n) == ToBigEndian(w, n)
    ensures v == w
  {
    FromToBigEndian(v, n);
    FromToBigEndian(w, n);
  }

  // Go spells the 2-, 4- and 8-byte layouts out as shifts; these lemmas equate them.

  lemma BigEndian2(v: nat)
    requires v < 0x1_0000
    ensures Pow256(2) == 0x1_0000
    ensures ToBigEndian(v, 2) == [ByteOf(v / 0x100), ByteOf(v)]
  {
  }

  lemma BigEndian4(v: nat)
    requires v < 0x1_0000_0000
    ensures Pow256(4) == 0x1_0000_0000
    ensures ToBigEndian(v, 4) == [ByteOf(v / 0x100_0000), ByteOf(v / 0x1_0000), ByteOf(v / 0x100), ByteOf(v)]
  {
    assert Pow256(4) == 0x1_0000_0000 by {
      assert Pow256(2) == 0x1_0000;
    }
    calc {
      ToBigEndian(v, 4);
      ToBigEndian(v / 0x100, 3) + [ByteOf(v)];
      ToBigEndian(v / 0x100 / 0x100, 2) + [ByteOf(v / 0x100), ByteOf(v)];
      { assert v / 0x100 / 0x100 == v / 0x1_0000;
        BigEndian2(v / 0x1_0000); }
      [ByteOf(v / 0x1_0000 / 0x100), ByteOf(v / 0x1_0000), ByteOf(v / 0x100), ByteOf(v)];
      { assert v / 0x1_0000 / 0x100 == v / 0x100_0000; }
      [ByteOf(v / 0x100_0000), ByteOf(v / 0x1_0000), ByteOf(v / 0x100), ByteOf(v)];
    }
  }

  lemma BigEndian8(v: nat)
    requires v < 0x1_0000_0000_0000_0000
    ensures Pow256(8) == 0x1_0000_0000_0000_0000
    ensures ToBigEndian(v, 8) == [
      ByteOf(v / 0x100_0000_0000_0000), ByteOf(v / 0x1_0000_0000_0000),
      ByteOf(v / 0x100_0000_0000), ByteOf(v / 0x1_0000_0000),
      ByteOf(v / 0x100_0000), ByteOf(v / 0x1_0000), ByteOf(v / 0x100), ByteOf(v)]
  {
    var v1 := v / 0x100;
    var v2 := v1 / 0x100;
    var v3 := v2 / 0x100;
    var v4 := v3 / 0x100;
    var v5 := v4 / 0x100;
    var v6 := v5 / 0x100;
    var v7 := v6 / 0x100;
    DivChain(v);
    PowValues();
    assert Pow256(1) == 0x100 && Pow256(2) == 0x1_0000 && Pow256(3) == 0x100_0000;
    assert v7 < Pow256(1) && v6 < Pow256(2) && v5 < Pow256(3);
    assert v4 < Pow256(4) && v3 < Pow256(5) && v2 < Pow256(6) && v1 < Pow256(7);
    assert ToBigEndian(v7, 1) == [ByteOf(v7)];
    assert ToBigEndian(v6, 2) == ToBigEndian(v7, 1) + [ByteOf(v6)];
    assert ToBigEndian(v5, 3) == ToBigEndian(v6, 2) + [ByteOf(v5)];
    assert ToBigEndian(v4, 4) == ToBigEndian(v5, 3) + [ByteOf(v4)];
    assert ToBigEndian(v3, 5) == ToBigEndian(v4, 4) + [ByteOf(v3)];
    assert ToBigEndian(v2, 6) == ToBigEndian(v3, 5) + [ByteOf(v2)];
    assert ToBigEndian(v1, 7) == ToBigEndian(v2, 6) + [ByteOf(v1)];
    assert ToBigEndian(v, 8) == ToBigEndian(v1, 7) + [ByteOf(v)];
    Snoc8(ToBigEndian(v7, 1), ToBigEndian(v6, 2), ToBigEndian(v5, 3), ToBigEndian(v4, 4),
      ToBigEndian(v3, 5), ToBigEndian(v2, 6), ToBigEndian(v1, 7), ToBigEndian(v, 8),
      ByteOf(v7), ByteOf(v6), ByteOf(v5), ByteOf(v4), ByteOf(v3), ByteOf(v2), ByteOf(v1), ByteOf(v));
  }

  /** Eight appends of one byte each spell out an eight-byte display. */
  lemma Snoc8(s1: seq<byte>, s2: seq<byte>, s3: seq<byte>, s4: seq<byte>,
              s5: seq<byte>, s6: seq<byte>, s7: seq<byte>, s8: seq<byte>,
              b1: byte, b2: byte, b3: byte, b4: byte, b5: byte, b6: byte, b7: byte, b8: byte)
    requires s1 == [b1] && s2 == s1 + [b2] && s3 == s2 + [b3] && s4 == s3 + [b4]
    requires s5 == s4 + [b5] && s6 == s5 + [b6] && s7 == s6 + [b7] && s8 == s7 + [b8]
    ensures s8 == [b1, b2, b3, b4, b5, b6, b7, b8]
  {
  }

  lemma PowValues()
    ensures Pow256(4) == 0x1_0000_0000 && Pow256(5) == 0x100_0000_0000
    ensures Pow256(6) == 0x1_0000_0000_0000 && Pow256(7) == 0x100_0000_0000_0000
    ensures Pow256(8) == 0x1_0000_0000_0000_0000
  {
    BigEndian4(0);
    assert Pow256(5) == 0x100 * Pow256(4);
    assert Pow256(6) == 0x100 * Pow256(5);
    assert Pow256(7) == 0x100 * Pow256(6);
    assert Pow256(8) == 0x100 * Pow256(7);
  }

  /** Repeated division by 256 is division by the corresponding power. */
  lemma DivChain(v: nat)
    requires v < 0x1_0000_0000_0000_0000
    ensures v / 0x100 / 0x100 == v / 0x1_0000
    ensures v / 0x1_0000 / 0x100 == v / 0x100_0000
    ensures v / 0x100_0000 / 0x100 == v / 0x1_0000_0000
    ensures v / 0x1_0000_0000 / 0x100 == v / 0x100_0000_0000
    ensures v / 0x100_0000_0000 / 0x100 == v / 0x1_0000_0000_0000
    ensures v / 0x1_0000_0000_0000 / 0x100 == v / 0x100_0000_0000_0000
    ensures v / 0x100_0000_0000_0000 < 0x100 && v / 0x1_0000_0000 < 0x1_0000_0000
  {
  }
}
