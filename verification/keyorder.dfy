/**
 * The two key orders a map can be sorted by: `bytes.Compare` alone
 * (bytewise lexical) and shorter-key-first with `bytes.Compare` as the
 * tie-break (length-first).
 */
module KeyOrder {
  import opened Cbor
  import opened Encoder

  /** `bytes.Compare`: -1, 0 or +1 as a sorts before, equal to or after b. */
  function Compare(a: seq<byte>, b: seq<byte>): (r: int)
    ensures r in {-1, 0, 1}
    ensures r == 0 <==> a == b
  {
    if |a| == 0 && |b| == 0 then 0
    else if |a| == 0 then -1
    else if |b| == 0 then 1
    else if a[0] < b[0] then -1
    else if a[0] > b[0] then 1
    else
      var r := Compare(a[1..], b[1..]);
      assert a == [a[0]] + a[1..] && b == [b[0]] + b[1..];
      r
  }

  /**
   * Lexical order stated without recursion: a is a proper prefix of b, or
   * the first differing byte is smaller in a.
   */
  predicate LexLess(a: seq<byte>, b: seq<byte>) {
    (|a| < |b| && a == b[..|a|])
    || exists k :: 0 <= k < |a| && k < |b| && a[..k] == b[..k] && a[k] < b[k]
  }

  lemma {:induction false} CompareIsLexical(a: seq<byte>, b: seq<byte>)
    ensures Compare(a, b) < 0 <==> LexLess(a, b)
    decreases |a|
  {
    if |a| == 0 || |b| == 0 {
    } else if a[0] < b[0] {
      assert a[..0] == b[..0];
    } else if a[0] > b[0] {
      LexLessFirstByte(a, b);
    } else {
      CompareIsLexical(a[1..], b[1..]);
      LexTail(a, b);
    }
  }

  /** A lexically smaller sequence cannot start with a larger byte. */
  lemma LexLessFirstByte(a: seq<byte>, b: seq<byte>)
    requires |a| > 0 && |b| > 0
    ensures LexLess(a, b) ==> a[0] <= b[0]
  {
    if LexLess(a, b) && !(|a| < |b| && a == b[..|a|]) {
      var k :| 0 <= k < |a| && k < |b| && a[..k] == b[..k] && a[k] < b[k];
      if k > 0 {
        assert a[..k][0] == b[..k][0];
      }
    }
  }

  /** With equal first bytes, LexLess is decided by the tails. */
  lemma LexTail(a: seq<byte>, b: seq<byte>)
    requires |a| > 0 && |b| > 0 && a[0] == b[0]
    ensures LexLess(a, b) <==> LexLess(a[1..], b[1..])
  {
    if LexLess(a, b) {
      if |a| < |b| && a == b[..|a|] {
        PrefixDropsHead(a, b);
      } else {
        var k :| 0 <= k < |a| && k < |b| && a[..k] == b[..k] && a[k] < b[k];
        DifferenceDropsHead(a, b, k);
      }
    }
    if LexLess(a[1..], b[1..]) {
      if |a[1..]| < |b[1..]| && a[1..] == b[1..][..|a[1..]|] {
        PrefixTakesHead(a, b);
      } else {
        var k :| 0 <= k < |a[1..]| && k < |b[1..]| && a[1..][..k] == b[1..][..k] && a[1..][k] < b[1..][k];
        DifferenceTakesHead(a, b, k);
      }
    }
  }

  lemma PrefixDropsHead(a: seq<byte>, b: seq<byte>)
    requires 0 < |a| < |b| && a == b[..|a|]
    ensures a[1..] == b[1..][..|a[1..]|]
  {
  }

  lemma DifferenceDropsHead(a: seq<byte>, b: seq<byte>, k: nat)
    requires |a| > 0 && |b| > 0 && a[0] == b[0]
    requires k < |a| && k < |b| && a[..k] == b[..k] && a[k] < b[k]
    ensures LexLess(a[1..], b[1..])
  {
    assert k > 0;
    assert a[1..][..k - 1] == a[..k][1..] && b[1..][..k - 1] == b[..k][1..];
    assert a[1..][k - 1] < b[1..][k - 1];
  }

  lemma PrefixTakesHead(a: seq<byte>, b: seq<byte>)
    requires |a| > 0 && |b| > 0 && a[0] == b[0]
    requires |a[1..]| < |b[1..]| && a[1..] == b[1..][..|a[1..]|]
    ensures |a| < |b| && a == b[..|a|]
  {
    assert a == [a[0]] + a[1..] && b[..|a|] == [b[0]] + b[1..][..|a[1..]|];
  }

  lemma DifferenceTakesHead(a: seq<byte>, b: seq<byte>, k: nat)
    requires |a| > 0 && |b| > 0 && a[0] == b[0]
    requires k < |a[1..]| && k < |b[1..]| && a[1..][..k] == b[1..][..k] && a[1..][k] < b[1..][k]
    ensures LexLess(a, b)
  {
    assert a[..k + 1] == [a[0]] + a[1..][..k] && b[..k + 1] == [b[0]] + b[1..][..k];
    assert a[k + 1] < b[k + 1];
  }

  lemma {:induction false} CompareAntisymmetric(a: seq<byte>, b: seq<byte>)
    ensures Compare(a, b) == -Compare(b, a)
    decreases |a|
  {
    if |a| > 0 && |b| > 0 && a[0] == b[0] {
      CompareAntisymmetric(a[1..], b[1..]);
    }
  }

  lemma {:induction false} CompareTransitive(a: seq<byte>, b: seq<byte>, c: seq<byte>)
    requires Compare(a, b) <= 0 && Compare(b, c) <= 0
    ensures Compare(a, c) <= 0
    decreases |a|
  {
    if |a| > 0 && |b| > 0 && |c| > 0 && a[0] == b[0] && b[0] == c[0] {
      CompareTransitive(a[1..], b[1..], c[1..]);
    }
  }

  /**
   * The comparison the map sort searches with: does key x belong at or before
   * key y? Under length-first a shorter key goes first; otherwise, and on
   * equal lengths, `bytes.Compare(x, y) <= 0` decides.
   */
  predicate KeyLessEq(mode: ModeSort, x: seq<byte>, y: seq<byte>) {
    if mode == SortLengthFirst && |x| != |y| then |x| < |y|
    else Compare(x, y) <= 0
  }

  lemma KeyLessEqReflexive(mode: ModeSort, x: seq<byte>)
    ensures KeyLessEq(mode, x, x)
  {
  }

  lemma KeyLessEqTotal(mode: ModeSort, x: seq<byte>, y: seq<byte>)
    ensures KeyLessEq(mode, x, y) || KeyLessEq(mode, y, x)
  {
    CompareAntisymmetric(x, y);
  }

  lemma KeyLessEqAntisymmetric(mode: ModeSort, x: seq<byte>, y: seq<byte>)
    requires KeyLessEq(mode, x, y) && KeyLessEq(mode, y, x)
    ensures x == y
  {
    CompareAntisymmetric(x, y);
  }

  lemma KeyLessEqTransitive(mode: ModeSort, x: seq<byte>, y: seq<byte>, z: seq<byte>)
    requires KeyLessEq(mode, x, y) && KeyLessEq(mode, y, z)
    ensures KeyLessEq(mode, x, z)
  {
    if mode == SortLengthFirst && (|x| != |y| || |y| != |z|) {
    } else {
      CompareTransitive(x, y, z);
    }
  }

  /**
   * The two orders disagree: the encoded integer 100 (18 64) sorts before -1
   * (20) bytewise, but after it when shorter keys go first.
   */
  lemma OrdersDiffer()
    ensures KeyLessEq(SortBytewiseLexical, [0x18, 0x64], [0x20])
    ensures !KeyLessEq(SortLengthFirst, [0x18, 0x64], [0x20])
    ensures KeyLessEq(SortLengthFirst, [0x20], [0x18, 0x64])
  {
  }
}
